/**
 The typed codec of include/params.h: `to_gvariant` as a relation (a map is written in whatever
 order its container iterates) and `from_gvariant` as a function, with the laws that tie them.
 */
module Codec {
  import opened Types

  // ---------------------------------------------------------------- to_gvariant

  function ToWire(b: Basic, a: Atom): Atom {
    if b.Float? && a.FloatA? then DoubleA(Widened(a.f)) else a
  }

  function Leaf(b: Basic, a: Atom): GVariant {
    GLeaf(OnWire(b), ToWire(b, a))
  }

  /** An iteration order of a container whose keys are `keys`. */
  ghost predicate IsOrder(order: seq<Atom>, keys: set<Atom>) {
    && (forall i, j | 0 <= i < j < |order| :: order[i] != order[j])
    && (forall i | 0 <= i < |order| :: order[i] in keys)
    && forall a | a in keys :: a in order
  }

  /** `v` is a value of type `t` and `g` is a GVariant that `to_gvariant` may build from it.
      A std::vector<bool> hands out proxies that `to_gvariant` refuses, so only an empty one can
      be encoded. */
  ghost predicate Encodes(t: CType, v: CValue, g: GVariant)
    decreases t, 1
  {
    match t
    case Scalar(b) => v.Atomic? && AtomFits(b, v.a) && g == Leaf(b, v.a)
    case Tuple(_, ts) =>
      && v.TupleV? && g.GTuple? && |v.elems| == |ts| == |g.children|
      && forall k | 0 <= k < |ts| :: Encodes(ts[k], v.elems[k], g.children[k])
    case Vector(e) =>
      && v.VectorV? && g.GArray? && g.elem == TypeOnWire(e) && |v.elems| == |g.children|
      && (e == Scalar(Bool) ==> v.elems == [])
      && forall k | 0 <= k < |v.elems| :: Encodes(e, v.elems[k], g.children[k])
    case Map(_, key, mapped) =>
      && v.MapV? && g.GArray? && g.elem == WEntry(WBasic(OnWire(key)), TypeOnWire(mapped))
      && exists order ::
        && IsOrder(order, v.entries.Keys)
        && EncodesEntries(key, mapped, v.entries, order, g.children)
    case Variant(alts) =>
      && v.VariantV? && v.index < |alts| && g.GBoxed?
      && Encodes(alts[v.index], v.held, g.child)
  }

  ghost predicate EncodesEntries(key: Basic, mapped: CType, m: map<Atom, CValue>, order: seq<Atom>,
                                 gs: seq<GVariant>)
    decreases mapped, 2
  {
    && |order| == |gs|
    && forall k | 0 <= k < |gs| ::
      && order[k] in m && AtomFits(key, order[k])
      && gs[k].GEntry? && gs[k].key == Leaf(key, order[k]) && Encodes(mapped, m[order[k]], gs[k].mapped)
  }

  lemma EntriesExtend(key: Basic, mapped: CType, m: map<Atom, CValue>, order: seq<Atom>, gs: seq<GVariant>,
                      a: Atom, g: GVariant)
    requires EncodesEntries(key, mapped, m, order, gs)
    requires a in m && AtomFits(key, a) && Encodes(mapped, m[a], g)
    ensures EncodesEntries(key, mapped, m, order + [a], gs + [GEntry(Leaf(key, a), g)])
  {
  }

  /** No std::vector<bool> inside the value has elements. */
  ghost predicate Encodable(t: CType, v: CValue)
    requires HasType(t, v)
    decreases t
  {
    match t
    case Scalar(_) => true
    case Tuple(_, ts) => forall k | 0 <= k < |ts| :: Encodable(ts[k], v.elems[k])
    case Vector(e) =>
      (e == Scalar(Bool) ==> v.elems == []) && forall k | 0 <= k < |v.elems| :: Encodable(e, v.elems[k])
    case Map(_, _, m) => forall a | a in v.entries :: Encodable(m, v.entries[a])
    case Variant(alts) => Encodable(alts[v.index], v.held)
  }

  lemma {:induction false} EncodesHasType(t: CType, v: CValue, g: GVariant)
    requires Encodes(t, v, g)
    ensures HasType(t, v)
    decreases t
  {
    match t
    case Scalar(_) =>
    case Tuple(_, ts) =>
      forall k | 0 <= k < |ts| ensures HasType(ts[k], v.elems[k]) {
        EncodesHasType(ts[k], v.elems[k], g.children[k]);
      }
    case Vector(e) =>
      forall k | 0 <= k < |v.elems| ensures HasType(e, v.elems[k]) {
        EncodesHasType(e, v.elems[k], g.children[k]);
      }
    case Map(_, key, mapped) =>
      var order :| IsOrder(order, v.entries.Keys) && EncodesEntries(key, mapped, v.entries, order, g.children);
      forall a | a in v.entries ensures AtomFits(key, a) && HasType(mapped, v.entries[a]) {
        var k :| 0 <= k < |order| && order[k] == a;
        EncodesHasType(mapped, v.entries[a], g.children[k].mapped);
      }
    case Variant(alts) => EncodesHasType(alts[v.index], v.held, g.child);
  }

  /** Type preservation: the encoding has the declared wire type, empty containers included, and
      meets every type check of GLib's builders. */
  lemma {:induction false} EncodingTyped(t: CType, v: CValue, g: GVariant)
    requires Encodes(t, v, g)
    ensures TypeOf(g) == TypeOnWire(t) && WellFormed(g)
    decreases t, 0
  {
    match t
    case Scalar(b) => LeafTyped(b, v.a);
    case Tuple(_, ts) =>
      forall k | 0 <= k < |ts| ensures TypeOf(g.children[k]) == TypeOnWire(ts[k]) && WellFormed(g.children[k]) {
        EncodingTyped(ts[k], v.elems[k], g.children[k]);
      }
    case Vector(e) =>
      forall k | 0 <= k < |v.elems|
        ensures TypeOf(g.children[k]) == TypeOnWire(e) && WellFormed(g.children[k])
      {
        EncodingTyped(e, v.elems[k], g.children[k]);
      }
    case Map(_, key, mapped) =>
      var order :| IsOrder(order, v.entries.Keys) && EncodesEntries(key, mapped, v.entries, order, g.children);
      EntriesTyped(key, mapped, v.entries, order, g.children);
    case Variant(alts) => EncodingTyped(alts[v.index], v.held, g.child);
  }

  lemma LeafTyped(b: Basic, a: Atom)
    requires AtomFits(b, a)
    ensures TypeOf(Leaf(b, a)) == WBasic(OnWire(b)) && WellFormed(Leaf(b, a))
  {
  }

  lemma {:induction false} EntriesTyped(key: Basic, mapped: CType, m: map<Atom, CValue>, order: seq<Atom>,
                                        gs: seq<GVariant>)
    requires EncodesEntries(key, mapped, m, order, gs)
    ensures forall k | 0 <= k < |gs| ::
      TypeOf(gs[k]) == WEntry(WBasic(OnWire(key)), TypeOnWire(mapped)) && WellFormed(gs[k])
    decreases mapped, 1
  {
    forall k | 0 <= k < |gs|
      ensures TypeOf(gs[k]) == WEntry(WBasic(OnWire(key)), TypeOnWire(mapped)) && WellFormed(gs[k])
    {
      EncodingTyped(mapped, m[order[k]], gs[k].mapped);
      LeafTyped(key, order[k]);
    }
  }

  /** Types that write alike: a std::pair like a std::tuple, a std::unordered_map like a std::map and a
      literal like a std::string, at any depth. */
  ghost predicate Alike(u: CType, t: CType)
    decreases t
  {
    match t
    case Scalar(b) => u == t || (b == CStr && u == Scalar(Str))
    case Tuple(_, ts) => u.Tuple? && |u.elems| == |ts| && forall k | 0 <= k < |ts| :: Alike(u.elems[k], ts[k])
    case Vector(e) => u.Vector? && Alike(u.elem, e)
    case Map(_, key, mapped) => u.Map? && u.key == key && Alike(u.mapped, mapped)
    case Variant(alts) => u.Variant? && |u.alts| == |alts| && forall k | 0 <= k < |alts| :: Alike(u.alts[k], alts[k])
  }

  lemma {:induction false} AlikeReflexive(t: CType)
    ensures Alike(t, t)
    decreases t
  {
    match t
    case Scalar(_) =>
    case Tuple(_, ts) => forall k | 0 <= k < |ts| ensures Alike(ts[k], ts[k]) { AlikeReflexive(ts[k]); }
    case Vector(e) => AlikeReflexive(e);
    case Map(_, _, m) => AlikeReflexive(m);
    case Variant(alts) => forall k | 0 <= k < |alts| ensures Alike(alts[k], alts[k]) { AlikeReflexive(alts[k]); }
  }

  lemma {:induction false} AlikeOnWire(u: CType, t: CType)
    requires Alike(u, t)
    ensures TypeOnWire(u) == TypeOnWire(t)
    decreases t
  {
    match t
    case Scalar(_) =>
    case Tuple(_, ts) =>
      forall k | 0 <= k < |ts| ensures TypeOnWire(u.elems[k]) == TypeOnWire(ts[k]) { AlikeOnWire(u.elems[k], ts[k]); }
    case Vector(e) => AlikeOnWire(u.elem, e);
    case Map(_, _, mapped) => AlikeOnWire(u.mapped, mapped);
    case Variant(_) =>
  }

  lemma {:induction false} AlikeHasType(u: CType, t: CType, v: CValue)
    requires Alike(u, t) && HasType(t, v)
    ensures HasType(u, v)
    decreases t
  {
    match t
    case Scalar(_) =>
    case Tuple(_, ts) =>
      forall k | 0 <= k < |ts| ensures HasType(u.elems[k], v.elems[k]) { AlikeHasType(u.elems[k], ts[k], v.elems[k]); }
    case Vector(e) =>
      forall k | 0 <= k < |v.elems| ensures HasType(u.elem, v.elems[k]) { AlikeHasType(u.elem, e, v.elems[k]); }
    case Map(_, _, m) =>
      forall a | a in v.entries ensures HasType(u.mapped, v.entries[a]) { AlikeHasType(u.mapped, m, v.entries[a]); }
    case Variant(alts) => AlikeHasType(u.alts[v.index], alts[v.index], v.held);
  }

  /** What is written at a type is written the same at every type alike. */
  lemma {:induction false} AlikeEncodes(u: CType, t: CType, v: CValue, g: GVariant)
    requires Alike(u, t) && Encodes(t, v, g)
    ensures Encodes(u, v, g)
    decreases t
  {
    match t
    case Scalar(_) =>
    case Tuple(_, ts) =>
      forall k | 0 <= k < |ts| ensures Encodes(u.elems[k], v.elems[k], g.children[k]) {
        AlikeEncodes(u.elems[k], ts[k], v.elems[k], g.children[k]);
      }
    case Vector(e) =>
      AlikeOnWire(u, t);
      forall k | 0 <= k < |v.elems| ensures Encodes(u.elem, v.elems[k], g.children[k]) {
        AlikeEncodes(u.elem, e, v.elems[k], g.children[k]);
      }
    case Map(_, key, mapped) =>
      AlikeOnWire(u, t);
      var order :| IsOrder(order, v.entries.Keys) && EncodesEntries(key, mapped, v.entries, order, g.children);
      forall k | 0 <= k < |order| ensures Encodes(u.mapped, v.entries[order[k]], g.children[k].mapped) {
        AlikeEncodes(u.mapped, mapped, v.entries[order[k]], g.children[k].mapped);
      }
      assert EncodesEntries(key, u.mapped, v.entries, order, g.children);
    case Variant(alts) => AlikeEncodes(u.alts[v.index], alts[v.index], v.held, g.child);
  }

  // ---------------------------------------------------------------- from_gvariant

  /** `to_dbus_type`: the GVariantType an alternative is matched by at run time. */
  datatype Pattern = PBasic(b: Basic) | PVariant | PArray | PTuple | PDictionary

  /** None is the throw at include/type_mapping.h:114, reached for unix_fd_t and const char*. */
  function PatternOf(t: CType): Option<Pattern> {
    match t
    case Scalar(b) => if b == UnixFd || b == CStr then None else Some(PBasic(OnWire(b)))
    case Variant(_) => Some(PVariant)
    case Vector(_) => Some(PArray)
    case Tuple(_, _) => Some(PTuple)
    case Map(_, _, _) => Some(PDictionary)
  }

  /** `g_variant_type_is_subtype_of`. */
  predicate Matches(p: Pattern, w: WireType) {
    match p
    case PBasic(b) => w == WBasic(b)
    case PVariant => w == WVariant
    case PArray => w.WArray?
    case PTuple => w.WTuple?
    case PDictionary => w.WArray? && w.elem.WEntry?
  }

  function FromWire(b: Basic, a: Atom): Atom {
    if b.Float? && a.DoubleA? then FloatA(Narrow(a.d)) else a
  }

  /** The value-initialised object `std::decay_t<T> ret`. */
  function Default(t: CType): CValue
    decreases t
  {
    match t
    case Scalar(Bool) => Atomic(BoolA(false))
    case Scalar(Float) => Atomic(FloatA(0))
    case Scalar(Double) => Atomic(DoubleA(Widened(0)))
    case Scalar(b) => Atomic(if b.Str? || b.CStr? || b.ObjectPath? then TextA("") else IntA(0))
    case Tuple(_, ts) => TupleV(seq(|ts|, k requires 0 <= k < |ts| => Default(ts[k])))
    case Vector(_) => VectorV([])
    case Map(_, _, _) => MapV(map[])
    case Variant(alts) => VariantV(0, if alts == [] then VectorV([]) else Default(alts[0]))
  }

  /** The leaves a GLib getter accepts: its own type, and `g_variant_get_string` object paths too. */
  predicate Reads(b: Basic, w: Basic) {
    b != CStr && (w == OnWire(b) || ((b.Str? || b.ObjectPath?) && (w.Str? || w.ObjectPath?)))
  }

  function DecodeBasic(b: Basic, g: GVariant): Outcome<Atom> {
    if g.GLeaf? && Reads(b, g.b) then Ok(FromWire(b, g.a)) else Fault
  }

  /** Runs a sequence of reads: all results in order, or a fault as soon as one of them faults. */
  function Collect<T>(os: seq<Outcome<T>>): (r: Outcome<seq<T>>)
    ensures r.Ok? <==> forall k | 0 <= k < |os| :: os[k].Ok?
    ensures r.Ok? ==> |r.value| == |os| && forall k | 0 <= k < |os| :: os[k] == Ok(r.value[k])
  {
    if os == [] then Ok([])
    else
      match (Collect(os[..|os| - 1]), os[|os| - 1])
      case (Ok(xs), Ok(x)) => Ok(xs + [x])
      case _ => Fault
  }

  /** `from_gvariant`. Tuples read their children by position, whatever container holds them, and
      ignore children in excess; vectors and maps check the whole type first. */
  function Decode(t: CType, g: GVariant): Outcome<CValue>
    decreases t, 0
  {
    match t
    case Scalar(b) => Wrap(DecodeBasic(b, g), a => Atomic(a))
    case Tuple(_, ts) =>
      var cs := Children(g);
      if |ts| <= |cs| then
        Wrap(Collect(seq(|ts|, k requires 0 <= k < |ts| => Decode(ts[k], cs[k]))), vs => TupleV(vs))
      else Fault
    case Vector(e) =>
      if TypeOf(g) == WArray(TypeOnWire(e)) then
        Wrap(Collect(seq(|g.children|, k requires 0 <= k < |g.children| =>
          Decode(e, g.children[k]))), vs => VectorV(vs))
      else Fault
    case Map(_, key, mapped) =>
      if TypeOf(g) == WArray(WEntry(WBasic(OnWire(key)), TypeOnWire(mapped))) then
        Wrap(Collect(seq(|g.children|, k requires 0 <= k < |g.children| =>
          DecodeEntry(key, mapped, g.children[k]))), ps => MapV(InsertAll(ps)))
      else Fault
    case Variant(alts) =>
      if Children(g) == [] then Fault
      else Extract(seq(|alts|, j requires 0 <= j < |alts| => Attempt(alts[j], Children(g)[0])), 0, Default(t))
  }

  function Wrap<T, U>(o: Outcome<T>, f: T -> U): Outcome<U> {
    match o
    case Ok(x) => Ok(f(x))
    case Fault => Fault
  }

  /** `from_gvariant<std::pair<key_type, mapped_type>>`, see PairDecodesEntry. */
  function DecodeEntry(key: Basic, mapped: CType, e: GVariant): Outcome<(Atom, CValue)>
    decreases mapped, 1
  {
    var cs := Children(e);
    if |cs| < 2 then Fault
    else
      match (DecodeBasic(key, cs[0]), Decode(mapped, cs[1]))
      case (Ok(a), Ok(v)) => Ok((a, v))
      case _ => Fault
  }

  /** The dictionary loop of include/params.h:97-100: `insert` keeps an entry already there. */
  function InsertAll(ps: seq<(Atom, CValue)>): map<Atom, CValue> {
    if ps == [] then map[]
    else
      var m := InsertAll(ps[..|ps| - 1]);
      var (a, v) := ps[|ps| - 1];
      if a in m then m else m[a := v]
  }

  /** What one alternative of a variant makes of the child. */
  datatype Attempted = NoPattern | Skipped | Assigned(o: Outcome<CValue>)

  function Attempt(t: CType, c: GVariant): Attempted
    decreases t, 1
  {
    match PatternOf(t)
    case None => NoPattern
    case Some(p) => if Matches(p, TypeOf(c)) then Assigned(Decode(t, c)) else Skipped
  }

  /** `extract` from alternative `i` on: every alternative whose pattern matches assigns `out`. */
  function Extract(tries: seq<Attempted>, i: nat, out: CValue): Outcome<CValue>
    requires i <= |tries|
    decreases |tries| - i
  {
    if i == |tries| then Ok(out)
    else
      match tries[i]
      case NoPattern => Fault
      case Assigned(Fault) => Fault
      case Assigned(Ok(x)) => Extract(tries, i + 1, VariantV(i, x))
      case Skipped => Extract(tries, i + 1, out)
  }

  // Each container, read pointwise.

  ghost function ReadTuple(ts: seq<CType>, gs: seq<GVariant>): seq<Outcome<CValue>>
    requires |ts| <= |gs|
  {
    seq(|ts|, k requires 0 <= k < |ts| => Decode(ts[k], gs[k]))
  }

  ghost function ReadEach(e: CType, gs: seq<GVariant>): seq<Outcome<CValue>> {
    seq(|gs|, k requires 0 <= k < |gs| => Decode(e, gs[k]))
  }

  ghost function ReadEntries(key: Basic, mapped: CType, gs: seq<GVariant>): seq<Outcome<(Atom, CValue)>> {
    seq(|gs|, k requires 0 <= k < |gs| => DecodeEntry(key, mapped, gs[k]))
  }

  lemma TupleUnfolds(pair: bool, ts: seq<CType>, g: GVariant)
    ensures |ts| <= |Children(g)| ==>
      Decode(Tuple(pair, ts), g) == Wrap(Collect(ReadTuple(ts, Children(g))), vs => TupleV(vs))
    ensures |ts| > |Children(g)| ==> Decode(Tuple(pair, ts), g) == Fault
  {
  }

  lemma VectorUnfolds(e: CType, g: GVariant)
    requires TypeOf(g) == WArray(TypeOnWire(e))
    ensures Decode(Vector(e), g) == Wrap(Collect(ReadEach(e, g.children)), vs => VectorV(vs))
  {
  }

  lemma MapUnfolds(hashed: bool, key: Basic, mapped: CType, g: GVariant)
    requires TypeOf(g) == WArray(WEntry(WBasic(OnWire(key)), TypeOnWire(mapped)))
    ensures Decode(Map(hashed, key, mapped), g) ==
      Wrap(Collect(ReadEntries(key, mapped, g.children)), ps => MapV(InsertAll(ps)))
  {
  }

  lemma CollectIs<T>(os: seq<Outcome<T>>, xs: seq<T>)
    ensures Collect(os) == Ok(xs) <==> |xs| == |os| && forall k | 0 <= k < |os| :: os[k] == Ok(xs[k])
  {
    if |xs| == |os| && forall k | 0 <= k < |os| :: os[k] == Ok(xs[k]) {
      assert Collect(os).value == xs;
    }
  }

  lemma TupleReads(pair: bool, ts: seq<CType>, g: GVariant)
    ensures var cs := Children(g);
      && (Decode(Tuple(pair, ts), g).Ok? <==>
          |ts| <= |cs| && forall k | 0 <= k < |ts| :: Decode(ts[k], cs[k]).Ok?)
  {
    TupleUnfolds(pair, ts, g);
    if |ts| <= |Children(g)| {
      var os := ReadTuple(ts, Children(g));
      assert forall k | 0 <= k < |os| :: os[k] == Decode(ts[k], Children(g)[k]);
    }
  }

  lemma TupleReadsAs(pair: bool, ts: seq<CType>, g: GVariant, vs: seq<CValue>)
    ensures var cs := Children(g);
      Decode(Tuple(pair, ts), g) == Ok(TupleV(vs)) <==>
        |ts| <= |cs| && |vs| == |ts| && forall k | 0 <= k < |ts| :: Decode(ts[k], cs[k]) == Ok(vs[k])
  {
    TupleUnfolds(pair, ts, g);
    if |ts| <= |Children(g)| {
      var os := ReadTuple(ts, Children(g));
      assert forall k | 0 <= k < |os| :: os[k] == Decode(ts[k], Children(g)[k]);
      CollectIs(os, vs);
    }
  }

  lemma VectorReads(e: CType, g: GVariant)
    requires TypeOf(g) == WArray(TypeOnWire(e))
    ensures Decode(Vector(e), g).Ok? <==> forall k | 0 <= k < |g.children| :: Decode(e, g.children[k]).Ok?
  {
    VectorUnfolds(e, g);
    var os := ReadEach(e, g.children);
    assert forall k | 0 <= k < |os| :: os[k] == Decode(e, g.children[k]);
  }

  lemma VectorReadsAs(e: CType, g: GVariant, vs: seq<CValue>)
    requires TypeOf(g) == WArray(TypeOnWire(e))
    ensures Decode(Vector(e), g) == Ok(VectorV(vs)) <==>
      |vs| == |g.children| && forall k | 0 <= k < |vs| :: Decode(e, g.children[k]) == Ok(vs[k])
  {
    VectorUnfolds(e, g);
    var os := ReadEach(e, g.children);
    assert forall k | 0 <= k < |os| :: os[k] == Decode(e, g.children[k]);
    CollectIs(os, vs);
  }

  lemma MapReads(hashed: bool, key: Basic, mapped: CType, g: GVariant)
    requires TypeOf(g) == WArray(WEntry(WBasic(OnWire(key)), TypeOnWire(mapped)))
    ensures Decode(Map(hashed, key, mapped), g).Ok? <==>
      forall k | 0 <= k < |g.children| :: DecodeEntry(key, mapped, g.children[k]).Ok?
  {
    MapUnfolds(hashed, key, mapped, g);
    var os := ReadEntries(key, mapped, g.children);
    assert forall k | 0 <= k < |os| :: os[k] == DecodeEntry(key, mapped, g.children[k]);
  }

  lemma MapReadsAs(hashed: bool, key: Basic, mapped: CType, g: GVariant, ps: seq<(Atom, CValue)>)
    requires TypeOf(g) == WArray(WEntry(WBasic(OnWire(key)), TypeOnWire(mapped)))
    requires |ps| == |g.children| && forall k | 0 <= k < |ps| :: DecodeEntry(key, mapped, g.children[k]) == Ok(ps[k])
    ensures Decode(Map(hashed, key, mapped), g) == Ok(MapV(InsertAll(ps)))
  {
    MapUnfolds(hashed, key, mapped, g);
    var os := ReadEntries(key, mapped, g.children);
    assert forall k | 0 <= k < |os| :: os[k] == DecodeEntry(key, mapped, g.children[k]);
    CollectIs(os, ps);
  }

  lemma PairDecodesEntry(key: Basic, mapped: CType, e: GVariant)
    ensures Decode(Tuple(true, [Scalar(key), mapped]), e) ==
      Wrap(DecodeEntry(key, mapped, e), (p: (Atom, CValue)) => TupleV([Atomic(p.0), p.1]))
  {
    var ts := [Scalar(key), mapped];
    TupleReads(true, ts, e);
    forall k | 0 <= k < |ts| ensures ts[k] == if k == 0 then Scalar(key) else mapped {
    }
    if DecodeEntry(key, mapped, e).Ok? {
      var (a, v) := DecodeEntry(key, mapped, e).value;
      TupleReadsAs(true, ts, e, [Atomic(a), v]);
      assert Decode(Tuple(true, ts), e) == Ok(TupleV([Atomic(a), v]));
    } else {
      assert |Children(e)| >= 2 ==> Decode(ts[0], Children(e)[0]).Fault? || Decode(ts[1], Children(e)[1]).Fault?;
    }
  }

  lemma TupleParts(pair: bool, ts: seq<CType>, g: GVariant) returns (vs: seq<CValue>)
    requires Decode(Tuple(pair, ts), g).Ok?
    ensures Decode(Tuple(pair, ts), g) == Ok(TupleV(vs)) && |vs| == |ts| <= |Children(g)|
    ensures forall k | 0 <= k < |ts| :: Decode(ts[k], Children(g)[k]) == Ok(vs[k])
  {
    TupleUnfolds(pair, ts, g);
    vs := Collect(ReadTuple(ts, Children(g))).value;
    TupleReadsAs(pair, ts, g, vs);
  }

  lemma VectorParts(e: CType, g: GVariant) returns (vs: seq<CValue>)
    requires Decode(Vector(e), g).Ok?
    ensures TypeOf(g) == WArray(TypeOnWire(e)) && Decode(Vector(e), g) == Ok(VectorV(vs)) && |vs| == |g.children|
    ensures forall k | 0 <= k < |vs| :: Decode(e, g.children[k]) == Ok(vs[k])
  {
    VectorUnfolds(e, g);
    vs := Collect(ReadEach(e, g.children)).value;
    VectorReadsAs(e, g, vs);
  }

  lemma MapParts(hashed: bool, key: Basic, mapped: CType, g: GVariant) returns (ps: seq<(Atom, CValue)>)
    requires Decode(Map(hashed, key, mapped), g).Ok?
    ensures TypeOf(g) == WArray(WEntry(WBasic(OnWire(key)), TypeOnWire(mapped))) && |ps| == |g.children|
    ensures Decode(Map(hashed, key, mapped), g) == Ok(MapV(InsertAll(ps)))
    ensures forall k | 0 <= k < |ps| :: DecodeEntry(key, mapped, g.children[k]) == Ok(ps[k])
  {
    MapUnfolds(hashed, key, mapped, g);
    var os := ReadEntries(key, mapped, g.children);
    ps := Collect(os).value;
    assert forall k | 0 <= k < |os| :: os[k] == DecodeEntry(key, mapped, g.children[k]);
  }

  // ---------------------------------------------------------------- variants

  ghost predicate Spoiled(a: Attempted) {
    a == NoPattern || a == Assigned(Fault)
  }

  /** Decoding a variant is a fold over its alternatives: the last match wins, the default stays
      when there is none, and one missing pattern or faulting match spoils the whole. */
  lemma {:induction false} ExtractIsLastMatch(tries: seq<Attempted>, i: nat, out: CValue)
    requires i <= |tries|
    ensures Extract(tries, i, out).Fault? <==> exists j | i <= j < |tries| :: Spoiled(tries[j])
    ensures (forall j | i <= j < |tries| :: tries[j] == Skipped) ==> Extract(tries, i, out) == Ok(out)
    ensures forall j | i <= j < |tries| && tries[j].Assigned? && Extract(tries, i, out).Ok?
      && (forall k | j < k < |tries| :: tries[k] == Skipped) ::
      tries[j].o.Ok? && Extract(tries, i, out) == Ok(VariantV(j, tries[j].o.value))
    decreases |tries| - i
  {
    if i < |tries| {
      var next := if tries[i].Assigned? && tries[i].o.Ok? then VariantV(i, tries[i].o.value) else out;
      ExtractIsLastMatch(tries, i + 1, next);
      if Spoiled(tries[i]) {
        assert Extract(tries, i, out).Fault?;
      } else {
        assert Extract(tries, i, out) == Extract(tries, i + 1, next);
      }
    }
  }

  ghost function Attempts(alts: seq<CType>, c: GVariant): seq<Attempted> {
    seq(|alts|, j requires 0 <= j < |alts| => Attempt(alts[j], c))
  }

  /** `alts[j]` would be assigned from a child of wire type `w`. */
  predicate Selects(alts: seq<CType>, j: nat, w: WireType)
    requires j < |alts|
  {
    PatternOf(alts[j]).Some? && Matches(PatternOf(alts[j]).value, w)
  }

  lemma OwnPattern(t: CType)
    requires PatternOf(t).Some?
    ensures Matches(PatternOf(t).value, TypeOnWire(t))
  {
  }

  /** An alternative is skipped when its pattern does not match the type of the child, and spoils
      the variant when it has no pattern or matches a child it cannot read. */
  lemma AttemptCases(alts: seq<CType>, c: GVariant, j: nat)
    requires j < |alts|
    ensures Attempt(alts[j], c) == Skipped <==> PatternOf(alts[j]).Some? && !Selects(alts, j, TypeOf(c))
    ensures Spoiled(Attempt(alts[j], c)) <==>
      PatternOf(alts[j]).None? || (Selects(alts, j, TypeOf(c)) && Decode(alts[j], c).Fault?)
  {
  }

  /** An alternative survives encoding and decoding exactly when it can be read back itself, every
      later alternative is skipped and no earlier one spoils the variant. */
  lemma VariantKeepsAlternative(alts: seq<CType>, i: nat, x: CValue, c: GVariant)
    requires i < |alts| && Encodes(alts[i], x, c)
    ensures Decode(Variant(alts), GBoxed(c)) == Ok(VariantV(i, x)) <==>
      && Attempt(alts[i], c) == Assigned(Ok(x))
      && (forall j | i < j < |alts| :: Attempt(alts[j], c) == Skipped)
      && (forall j | 0 <= j < i :: !Spoiled(Attempt(alts[j], c)))
  {
    var tries := Attempts(alts, c);
    DecodesByExtract(alts, c);
    OwnAttempt(alts[i], x, c);
    ExtractKeeps(tries, i, x, Default(Variant(alts)));
    AttemptsAt(alts, c);
  }

  lemma AttemptsAt(alts: seq<CType>, c: GVariant)
    ensures forall j {:trigger Attempts(alts, c)[j]} {:trigger alts[j]} | 0 <= j < |alts| ::
      Attempts(alts, c)[j] == Attempt(alts[j], c)
  {
  }

  /** The alternative that was written is never skipped. */
  lemma OwnAttempt(t: CType, x: CValue, c: GVariant)
    requires Encodes(t, x, c)
    ensures Attempt(t, c) == if PatternOf(t).Some? then Assigned(Decode(t, c)) else NoPattern
  {
    EncodingTyped(t, x, c);
    if PatternOf(t).Some? { OwnPattern(t); }
  }

  lemma DecodesByExtract(alts: seq<CType>, c: GVariant)
    ensures Decode(Variant(alts), GBoxed(c)) == Extract(Attempts(alts, c), 0, Default(Variant(alts)))
  {
  }

  lemma ExtractKeeps(tries: seq<Attempted>, i: nat, x: CValue, out: CValue)
    requires i < |tries| && tries[i] != Skipped
    ensures Extract(tries, 0, out) == Ok(VariantV(i, x)) <==>
      && tries[i] == Assigned(Ok(x))
      && (forall j | i < j < |tries| :: tries[j] == Skipped)
      && (forall j | 0 <= j < i :: !Spoiled(tries[j]))
  {
    ExtractIsLastMatch(tries, 0, out);
    LastAssigned(tries, i);
    var last :| i <= last < |tries| && tries[last] != Skipped && forall k | last < k < |tries| :: tries[k] == Skipped;
  }

  lemma {:induction false} LastAssigned(tries: seq<Attempted>, i: nat)
    requires i < |tries| && tries[i] != Skipped
    ensures exists last | i <= last < |tries| ::
      tries[last] != Skipped && forall k | last < k < |tries| :: tries[k] == Skipped
    decreases |tries| - i
  {
    if j :| i < j < |tries| && tries[j] != Skipped {
      LastAssigned(tries, j);
    }
  }

  // ---------------------------------------------------------------- dictionaries

  /** Position `k` holds the first binding of its key. */
  ghost predicate FirstAt(ps: seq<(Atom, CValue)>, k: int) {
    0 <= k < |ps| && forall j | 0 <= j < k :: ps[j].0 != ps[k].0
  }

  ghost predicate Bound(ps: seq<(Atom, CValue)>, a: Atom) {
    exists k :: 0 <= k < |ps| && ps[k].0 == a
  }

  lemma {:induction false} InsertAllKeys(ps: seq<(Atom, CValue)>, a: Atom)
    ensures a in InsertAll(ps) <==> Bound(ps, a)
  {
    if ps != [] {
      var n := |ps| - 1;
      var front := ps[..n];
      InsertAllKeys(front, a);
      assert ps[n].0 == a ==> Bound(ps, a);
      if k :| 0 <= k < n && ps[k].0 == a {
        assert front[k].0 == a;
      }
      if k :| 0 <= k < |front| && front[k].0 == a {
        assert ps[k].0 == a;
      }
    }
  }

  /** The first binding of each key wins, duplicates included. */
  lemma {:induction false} FirstBindingWins(ps: seq<(Atom, CValue)>, k: nat)
    requires FirstAt(ps, k)
    ensures ps[k].0 in InsertAll(ps) && InsertAll(ps)[ps[k].0] == ps[k].1
    decreases |ps|
  {
    var n := |ps| - 1;
    var front := ps[..n];
    InsertAllKeys(front, ps[k].0);
    if k < n {
      assert FirstAt(front, k);
      FirstBindingWins(front, k);
    }
  }
}
