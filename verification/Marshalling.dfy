/**
 `to_gvariant` and `from_gvariant` of include/params.h step by step: the builder they feed, the
 loops that grow `ret`, and the variant alternatives assigned in turn. Each is proved against
 the relation and the function of module Codec.
 */
module Marshalling {
  import opened Types
  import opened Codec

  datatype BuilderKind = TupleBuilder | VariantBuilder | ArrayBuilder(elem: WireType)

  /** GLib's GVariantBuilder; the preconditions are the checks GLib itself makes. */
  class GVariantBuilder {
    const kind: BuilderKind
    var children: seq<GVariant>

    /** What GLib keeps true of a builder: well-formed children, of the element type in an array. */
    ghost predicate Valid()
      reads this
    {
      forall k | 0 <= k < |children| ::
        WellFormed(children[k]) && (kind.ArrayBuilder? ==> TypeOf(children[k]) == kind.elem)
    }

    constructor (kind: BuilderKind)
      ensures Valid() && this.kind == kind && children == []
    {
      this.kind := kind;
      this.children := [];
    }

    predicate Accepts(g: GVariant)
      reads this
    {
      match kind
      case TupleBuilder => true
      case VariantBuilder => children == []
      case ArrayBuilder(e) => TypeOf(g) == e
    }

    method AddValue(g: GVariant)
      requires Valid() && WellFormed(g) && Accepts(g)
      modifies this
      ensures Valid() && children == old(children) + [g]
    {
      children := children + [g];
    }

    method End() returns (g: GVariant)
      requires Valid() && (kind.VariantBuilder? ==> |children| == 1)
      ensures WellFormed(g) && Children(g) == children
      ensures kind.TupleBuilder? ==> g.GTuple?
      ensures kind.VariantBuilder? ==> TypeOf(g) == WVariant
      ensures kind.ArrayBuilder? ==> TypeOf(g) == WArray(kind.elem)
    {
      match kind {
        case TupleBuilder => g := GTuple(children);
        case VariantBuilder => g := GBoxed(children[0]);
        case ArrayBuilder(e) => g := GArray(e, children);
      }
    }
  }

  /** `g_variant_new("{@k@v}", key, value)`, which takes a basic key only. */
  method NewEntry(key: GVariant, mapped: GVariant) returns (e: GVariant)
    requires key.GLeaf?
    ensures e == GEntry(key, mapped)
  {
    e := GEntry(key, mapped);
  }

  /** Writes a value, or throws when it meets the proxy of a std::vector<bool>. */
  method ToGVariant(t: CType, v: CValue) returns (r: Outcome<GVariant>)
    requires HasType(t, v)
    ensures r.Ok? <==> Encodable(t, v)
    ensures r.Ok? ==> Encodes(t, v, r.value)
    decreases t, 1
  {
    match t {
      case Scalar(b) => r := Ok(Leaf(b, v.a));
      case Tuple(pair, ts) => r := TupleToGVariant(pair, ts, v);
      case Vector(e) => r := VectorToGVariant(e, v);
      case Map(hashed, key, mapped) => r := MapToGVariant(hashed, key, mapped, v);
      case Variant(alts) =>
        var builder := new GVariantBuilder(VariantBuilder);
        var child := ToGVariant(alts[v.index], v.held);
        if child.Fault? { return Fault; }
        EncodingTyped(alts[v.index], v.held, child.value);
        builder.AddValue(child.value);
        var g := builder.End();
        assert g.child == Children(g)[0];
        r := Ok(g);
    }
  }

  method TupleToGVariant(pair: bool, ts: seq<CType>, v: CValue) returns (r: Outcome<GVariant>)
    requires HasType(Tuple(pair, ts), v)
    ensures r.Ok? <==> Encodable(Tuple(pair, ts), v)
    ensures r.Ok? ==> Encodes(Tuple(pair, ts), v, r.value)
    decreases ts, 0
  {
    var builder := new GVariantBuilder(TupleBuilder);
    for i := 0 to |ts|
      invariant fresh(builder) && builder.Valid() && |builder.children| == i
      invariant forall k | 0 <= k < i :: Encodable(ts[k], v.elems[k]) && Encodes(ts[k], v.elems[k], builder.children[k])
    {
      var child := ToGVariant(ts[i], v.elems[i]);
      if child.Fault? { return Fault; }
      EncodingTyped(ts[i], v.elems[i], child.value);
      builder.AddValue(child.value);
    }
    var g := builder.End();
    r := Ok(g);
  }

  method VectorToGVariant(e: CType, v: CValue) returns (r: Outcome<GVariant>)
    requires HasType(Vector(e), v)
    ensures r.Ok? <==> Encodable(Vector(e), v)
    ensures r.Ok? ==> Encodes(Vector(e), v, r.value)
    decreases e, 2
  {
    var builder := new GVariantBuilder(ArrayBuilder(TypeOnWire(e)));
    for i := 0 to |v.elems|
      invariant fresh(builder) && builder.Valid() && builder.kind == ArrayBuilder(TypeOnWire(e))
      invariant |builder.children| == i
      invariant i > 0 ==> e != Scalar(Bool)
      invariant forall k | 0 <= k < i :: Encodable(e, v.elems[k]) && Encodes(e, v.elems[k], builder.children[k])
    {
      // The proxies of std::vector<bool> are no type `to_gvariant` knows.
      if e == Scalar(Bool) { return Fault; }
      var child := ToGVariant(e, v.elems[i]);
      if child.Fault? { return Fault; }
      EncodingTyped(e, v.elems[i], child.value);
      builder.AddValue(child.value);
    }
    var g := builder.End();
    r := Ok(g);
  }

  method MapToGVariant(hashed: bool, key: Basic, mapped: CType, v: CValue) returns (r: Outcome<GVariant>)
    requires HasType(Map(hashed, key, mapped), v)
    ensures r.Ok? <==> Encodable(Map(hashed, key, mapped), v)
    ensures r.Ok? ==> Encodes(Map(hashed, key, mapped), v, r.value)
    decreases mapped, 4
  {
    var entry := WEntry(WBasic(OnWire(key)), TypeOnWire(mapped));
    var builder := new GVariantBuilder(ArrayBuilder(entry));
    var ok;
    ghost var order;
    ok, order := AddEntries(key, mapped, v.entries, builder);
    if !ok { return Fault; }
    var g := builder.End();
    r := Ok(g);
  }

  /** The loop of include/params.h:169-171, in whatever order the container iterates. */
  method AddEntries(key: Basic, mapped: CType, m: map<Atom, CValue>, builder: GVariantBuilder)
    returns (ok: bool, ghost order: seq<Atom>)
    requires builder.kind == ArrayBuilder(WEntry(WBasic(OnWire(key)), TypeOnWire(mapped)))
    requires builder.Valid() && builder.children == []
    requires forall a | a in m :: AtomFits(key, a) && HasType(mapped, m[a])
    modifies builder
    ensures builder.Valid()
    ensures ok <==> forall a | a in m :: Encodable(mapped, m[a])
    ensures ok ==> IsOrder(order, m.Keys) && EncodesEntries(key, mapped, m, order, builder.children)
    decreases mapped, 3
  {
    var remaining := m.Keys;
    order := [];
    while remaining != {}
      invariant remaining <= m.Keys && builder.Valid()
      invariant IsOrder(order, m.Keys - remaining)
      invariant EncodesEntries(key, mapped, m, order, builder.children)
      invariant forall a | a in m && a !in remaining :: Encodable(mapped, m[a])
      decreases remaining
    {
      var a :| a in remaining;
      ghost var children := builder.children;
      var added;
      ghost var g;
      added, g := AddEntry(key, mapped, a, m[a], builder);
      if !added { return false, order; }
      OrderExtends(order, m.Keys - remaining, a);
      EntriesExtend(key, mapped, m, order, children, a, g);
      assert m.Keys - (remaining - {a}) == m.Keys - remaining + {a};
      remaining := remaining - {a};
      order := order + [a];
    }
    assert m.Keys - remaining == m.Keys;
    ok := true;
  }

  /** One entry: the value is written before the entry is made and added. */
  method AddEntry(key: Basic, mapped: CType, a: Atom, v: CValue, builder: GVariantBuilder)
    returns (ok: bool, ghost g: GVariant)
    requires builder.Valid() && builder.kind == ArrayBuilder(WEntry(WBasic(OnWire(key)), TypeOnWire(mapped)))
    requires AtomFits(key, a) && HasType(mapped, v)
    modifies builder
    ensures builder.Valid()
    ensures ok <==> Encodable(mapped, v)
    ensures ok ==> Encodes(mapped, v, g) && builder.children == old(builder.children) + [GEntry(Leaf(key, a), g)]
    decreases mapped, 2
  {
    var value := ToGVariant(mapped, v);
    if value.Fault? { return false, GTuple([]); }
    EncodingTyped(mapped, v, value.value);
    LeafTyped(key, a);
    var e := NewEntry(Leaf(key, a), value.value);
    builder.AddValue(e);
    ok, g := true, value.value;
  }

  lemma OrderExtends(order: seq<Atom>, keys: set<Atom>, a: Atom)
    requires IsOrder(order, keys) && a !in keys
    ensures IsOrder(order + [a], keys + {a})
  {
    assert (order + [a])[|order|] == a;
    forall b | b in keys ensures b in order + [a] {
      assert b in order;
    }
  }

  // ---------------------------------------------------------------- from_gvariant

  /** Reads a value; the result is the one Codec.Decode gives. */
  method FromGVariant(t: CType, g: GVariant) returns (r: Outcome<CValue>)
    ensures r == Decode(t, g)
    decreases t, 1
  {
    match t {
      case Scalar(b) =>
        var o := DecodeBasic(b, g);
        r := if o.Ok? then Ok(Atomic(o.value)) else Fault;
      case Tuple(pair, ts) => r := TupleFromGVariant(pair, ts, g);
      case Vector(e) => r := VectorFromGVariant(e, g);
      case Map(hashed, key, mapped) => r := MapFromGVariant(hashed, key, mapped, g);
      case Variant(alts) =>
        var cs := Children(g);
        if cs == [] { return Fault; }
        r := ExtractVariant(alts, cs[0], Default(t));
    }
  }

  method TupleFromGVariant(pair: bool, ts: seq<CType>, g: GVariant) returns (r: Outcome<CValue>)
    ensures r == Decode(Tuple(pair, ts), g)
    decreases ts, 0
  {
    var ret: seq<CValue> := [];
    TupleReads(pair, ts, g);
    for index := 0 to |ts|
      invariant |ret| == index <= |Children(g)|
      invariant forall k | 0 <= k < index :: Decode(ts[k], Children(g)[k]) == Ok(ret[k])
    {
      if index >= |Children(g)| { return Fault; }
      var item := FromGVariant(ts[index], Children(g)[index]);
      if item.Fault? { return Fault; }
      ret := ret + [item.value];
    }
    TupleReadsAs(pair, ts, g, ret);
    r := Ok(TupleV(ret));
  }

  method VectorFromGVariant(e: CType, g: GVariant) returns (r: Outcome<CValue>)
    ensures r == Decode(Vector(e), g)
    decreases e, 3
  {
    if TypeOf(g) != WArray(TypeOnWire(e)) { return Fault; }
    var items := ReadItems(e, g.children);
    VectorUnfolds(e, g);
    r := if items.Ok? then Ok(VectorV(items.value)) else Fault;
  }

  /** The `while` loop of include/params.h:75-78. */
  method ReadItems(e: CType, gs: seq<GVariant>) returns (r: Outcome<seq<CValue>>)
    ensures r == Collect(ReadEach(e, gs))
    decreases e, 2
  {
    var ret: seq<CValue> := [];
    var i := 0;
    ghost var os := ReadEach(e, gs);
    while i < |gs|
      invariant 0 <= i == |ret| <= |gs|
      invariant forall k | 0 <= k < i :: os[k] == Ok(ret[k])
    {
      assert os[i] == Decode(e, gs[i]);
      var rec := FromGVariant(e, gs[i]);
      if rec.Fault? { return Fault; }
      ret := ret + [rec.value];
      i := i + 1;
    }
    CollectIs(os, ret);
    r := Ok(ret);
  }

  method MapFromGVariant(hashed: bool, key: Basic, mapped: CType, g: GVariant) returns (r: Outcome<CValue>)
    ensures r == Decode(Map(hashed, key, mapped), g)
    decreases mapped, 4
  {
    if TypeOf(g) != WArray(WEntry(WBasic(OnWire(key)), TypeOnWire(mapped))) { return Fault; }
    ghost var ps;
    var m;
    m, ps := InsertItems(key, mapped, g.children);
    MapUnfolds(hashed, key, mapped, g);
    r := if m.Ok? then Ok(MapV(m.value)) else Fault;
  }

  /** The `while` loop of include/params.h:97-100. */
  method InsertItems(key: Basic, mapped: CType, gs: seq<GVariant>)
    returns (r: Outcome<map<Atom, CValue>>, ghost ps: seq<(Atom, CValue)>)
    ensures r.Fault? ==> Collect(ReadEntries(key, mapped, gs)) == Fault
    ensures r.Ok? ==> Collect(ReadEntries(key, mapped, gs)) == Ok(ps) && r.value == InsertAll(ps)
    decreases mapped, 3
  {
    var ret: map<Atom, CValue> := map[];
    var i := 0;
    ps := [];
    ghost var os := ReadEntries(key, mapped, gs);
    while i < |gs|
      invariant 0 <= i == |ps| <= |gs|
      invariant forall k | 0 <= k < i :: os[k] == Ok(ps[k])
      invariant ret == InsertAll(ps)
    {
      var rec := ReadEntry(key, mapped, gs, i, os);
      if rec.Fault? { return Fault, ps; }
      if rec.value.0 !in ret {
        ret := ret[rec.value.0 := rec.value.1];
      }
      InsertOne(ps, rec.value);
      ps := ps + [rec.value];
      i := i + 1;
    }
    CollectIs(os, ps);
    r := Ok(ret);
  }

  /** One `from_gvariant<std::pair<key_type, mapped_type>>(rec)` of the loop. */
  method ReadEntry(key: Basic, mapped: CType, gs: seq<GVariant>, i: nat, ghost os: seq<Outcome<(Atom, CValue)>>)
    returns (rec: Outcome<(Atom, CValue)>)
    requires i < |gs| && os == ReadEntries(key, mapped, gs)
    ensures i < |os| && rec == os[i]
    decreases mapped, 2, 1
  {
    rec := EntryFromGVariant(key, mapped, gs[i]);
    ReadEntriesAt(key, mapped, gs, i);
  }

  lemma ReadEntriesAt(key: Basic, mapped: CType, gs: seq<GVariant>, k: nat)
    requires k < |gs|
    ensures ReadEntries(key, mapped, gs)[k] == DecodeEntry(key, mapped, gs[k])
  {
  }

  lemma InsertOne(ps: seq<(Atom, CValue)>, p: (Atom, CValue))
    ensures InsertAll(ps + [p]) == if p.0 in InsertAll(ps) then InsertAll(ps) else InsertAll(ps)[p.0 := p.1]
  {
    assert (ps + [p])[..|ps|] == ps;
  }

  /** `from_gvariant<std::pair<key_type, mapped_type>>`. */
  method EntryFromGVariant(key: Basic, mapped: CType, e: GVariant) returns (r: Outcome<(Atom, CValue)>)
    ensures r == DecodeEntry(key, mapped, e)
    decreases mapped, 2, 0
  {
    var cs := Children(e);
    if |cs| < 2 { return Fault; }
    var k := DecodeBasic(key, cs[0]);
    var v := FromGVariant(mapped, cs[1]);
    r := if k.Ok? && v.Ok? then Ok((k.value, v.value)) else Fault;
  }

  /** `extract`: every matching alternative assigns `out`, from first to last. */
  method ExtractVariant(alts: seq<CType>, c: GVariant, initial: CValue) returns (r: Outcome<CValue>)
    ensures r == Extract(Attempts(alts, c), 0, initial)
    decreases alts, 0
  {
    var out := initial;
    ghost var tries := Attempts(alts, c);
    AttemptsAt(alts, c);
    for i := 0 to |alts|
      invariant Extract(tries, 0, initial) == Extract(tries, i, out)
    {
      assert tries[i] == Attempt(alts[i], c);
      var p := PatternOf(alts[i]);
      if p.None? { return Fault; }
      if Matches(p.value, TypeOf(c)) {
        var x := FromGVariant(alts[i], c);
        if x.Fault? { return Fault; }
        out := VariantV(i, x.value);
      }
    }
    r := Ok(out);
  }
}
