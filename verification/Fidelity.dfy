/**
 Which C++ types survive `from_gvariant(to_gvariant(v))`: exactly those whose variants have, at every
 depth, alternatives with pairwise disjoint patterns. And which types can be read at another type
 without a fault: exactly those that pass a static check.
 */
module Fidelity {
  import opened Types
  import opened Codec

  /** Reading at type `u` whatever was written at type `t` never faults. */
  ghost predicate SafeRead(u: CType, t: CType)
    decreases u, 0
  {
    match u
    case Scalar(b) => t.Scalar? && Reads(b, OnWire(t.b))
    case Tuple(_, us) =>
      || us == []
      || (t.Tuple? && |us| <= |t.elems| && forall k | 0 <= k < |us| :: SafeRead(us[k], t.elems[k]))
      || (t.Variant? && |us| == 1 && forall k | 0 <= k < |t.alts| :: SafeRead(us[0], t.alts[k]))
    case Vector(e) => t.Vector? && TypeOnWire(e) == TypeOnWire(t.elem) && SafeRead(e, t.elem)
    case Map(_, _, m) => t.Map? && TypeOnWire(u) == TypeOnWire(t) && SafeRead(m, t.mapped)
    case Variant(alts) =>
      || (t.Tuple? && t.elems != [] && SafeChoice(alts, t.elems[0]))
      || (t.Variant? && forall k | 0 <= k < |t.alts| :: SafeChoice(alts, t.alts[k]))
  }

  /** Choosing among `alts` for a child written at type `t` never faults. */
  ghost predicate SafeChoice(alts: seq<CType>, t: CType)
    decreases alts, 0
  {
    forall j | 0 <= j < |alts| ::
      PatternOf(alts[j]).Some? && (Selects(alts, j, TypeOnWire(t)) ==> SafeRead(alts[j], t))
  }

  /** The static condition: at every depth the alternatives of a variant have patterns, no two of
      which match the same wire type. */
  ghost predicate Faithful(t: CType)
    decreases t
  {
    match t
    case Scalar(b) => b != CStr
    case Tuple(_, ts) => forall k | 0 <= k < |ts| :: Faithful(ts[k])
    case Vector(e) => Faithful(e)
    case Map(_, _, m) => Faithful(m)
    case Variant(alts) =>
      && (forall i | 0 <= i < |alts| :: Faithful(alts[i]) && PatternOf(alts[i]).Some?)
      && forall i, j, w | 0 <= i < j < |alts| :: !(Selects(alts, i, w) && Selects(alts, j, w))
  }

  // ---------------------------------------------------------------- reading never faults

  lemma {:induction false} SafeReadSound(u: CType, t: CType, x: CValue, g: GVariant)
    requires SafeRead(u, t) && Supported(u) && Encodes(t, x, g)
    ensures Decode(u, g).Ok?
    decreases u, 2
  {
    match u
    case Scalar(_) => EncodingTyped(t, x, g);
    case Tuple(_, _) => SafeTuple(u, t, x, g);
    case Vector(_) => SafeVector(u, t, x, g);
    case Map(_, _, _) => SafeMap(u, t, x, g);
    case Variant(alts) =>
      if t.Tuple? {
        SafeChoiceSound(alts, t.elems[0], x.elems[0], g.children[0]);
      } else {
        SafeChoiceSound(alts, t.alts[x.index], x.held, g.child);
      }
      VariantReads(alts, g);
  }

  lemma {:induction false} SafeTuple(u: CType, t: CType, x: CValue, g: GVariant)
    requires u.Tuple? && SafeRead(u, t) && Supported(u) && Encodes(t, x, g)
    ensures Decode(u, g).Ok?
    decreases u, 1
  {
    TupleReads(u.pair, u.elems, g);
    forall k | 0 <= k < |u.elems| ensures |u.elems| <= |Children(g)| && Decode(u.elems[k], Children(g)[k]).Ok? {
      if t.Tuple? {
        SafeReadSound(u.elems[k], t.elems[k], x.elems[k], g.children[k]);
      } else {
        SafeReadSound(u.elems[0], t.alts[x.index], x.held, g.child);
      }
    }
  }

  lemma {:induction false} SafeVector(u: CType, t: CType, x: CValue, g: GVariant)
    requires u.Vector? && SafeRead(u, t) && Supported(u) && Encodes(t, x, g)
    ensures Decode(u, g).Ok?
    decreases u, 1
  {
    VectorReads(u.elem, g);
    forall k | 0 <= k < |g.children| ensures Decode(u.elem, g.children[k]).Ok? {
      SafeReadSound(u.elem, t.elem, x.elems[k], g.children[k]);
    }
  }

  lemma {:induction false} SafeMap(u: CType, t: CType, x: CValue, g: GVariant)
    requires u.Map? && SafeRead(u, t) && Supported(u) && Encodes(t, x, g)
    ensures Decode(u, g).Ok?
    decreases u, 1
  {
    MapReads(u.hashed, u.key, u.mapped, g);
    var order := OrderOf(t, x, g);
    forall k | 0 <= k < |g.children| ensures DecodeEntry(u.key, u.mapped, g.children[k]).Ok? {
      EntryAt(t.key, t.mapped, x.entries, order, g.children, k);
      SafeReadSound(u.mapped, t.mapped, x.entries[order[k]], g.children[k].mapped);
      EntryReads(u.key, u.mapped, t.key, order[k], g.children[k]);
    }
  }

  /** The order a map was written in. */
  lemma OrderOf(t: CType, x: CValue, g: GVariant) returns (order: seq<Atom>)
    requires t.Map? && Encodes(t, x, g)
    ensures IsOrder(order, x.entries.Keys) && EncodesEntries(t.key, t.mapped, x.entries, order, g.children)
  {
    order :| IsOrder(order, x.entries.Keys) && EncodesEntries(t.key, t.mapped, x.entries, order, g.children);
  }

  lemma EntryAt(key: Basic, mapped: CType, m: map<Atom, CValue>, order: seq<Atom>, gs: seq<GVariant>, k: nat)
    requires EncodesEntries(key, mapped, m, order, gs) && k < |gs|
    ensures |order| == |gs| && order[k] in m && AtomFits(key, order[k])
    ensures gs[k].GEntry? && gs[k].key == Leaf(key, order[k]) && Encodes(mapped, m[order[k]], gs[k].mapped)
  {
  }

  /** An entry written with a key of type `key` is read at `key'` if both look alike on the wire;
      at the same type the key comes back. */
  lemma EntryReads(key': Basic, mapped: CType, key: Basic, a: Atom, e: GVariant)
    requires e.GEntry? && e.key == Leaf(key, a) && AtomFits(key, a)
    requires key' != CStr && OnWire(key') == OnWire(key)
    ensures DecodeEntry(key', mapped, e).Ok? <==> Decode(mapped, e.mapped).Ok?
    ensures key' == key && Decode(mapped, e.mapped).Ok? ==>
      DecodeEntry(key', mapped, e) == Ok((a, Decode(mapped, e.mapped).value))
  {
    var cs := Children(e);
    assert cs[0] == e.key && cs[1] == e.mapped;
  }

  lemma {:induction false} SafeChoiceSound(alts: seq<CType>, t: CType, x: CValue, c: GVariant)
    requires SafeChoice(alts, t) && Encodes(t, x, c)
    requires forall j | 0 <= j < |alts| :: Supported(alts[j])
    ensures forall j | 0 <= j < |alts| :: !Spoiled(Attempt(alts[j], c))
    decreases alts, 1
  {
    EncodingTyped(t, x, c);
    forall j | 0 <= j < |alts| ensures !Spoiled(Attempt(alts[j], c)) {
      if Selects(alts, j, TypeOnWire(t)) {
        SafeReadSound(alts[j], t, x, c);
      }
      AttemptCases(alts, c, j);
    }
  }

  lemma VariantReads(alts: seq<CType>, g: GVariant)
    ensures Decode(Variant(alts), g).Ok? <==>
      Children(g) != [] && forall j | 0 <= j < |alts| :: !Spoiled(Attempt(alts[j], Children(g)[0]))
  {
    if Children(g) != [] {
      var c := Children(g)[0];
      AttemptsAt(alts, c);
      ExtractIsLastMatch(Attempts(alts, c), 0, Default(Variant(alts)));
    }
  }

  // ---------------------------------------------------------------- sufficiency

  /** Decoding what was encoded returns the original value, through any nesting of tuples,
      vectors, maps and variants and whatever order the maps were written in. */
  lemma {:induction false} RoundTrip(t: CType, v: CValue, g: GVariant)
    requires Faithful(t) && Supported(t) && Encodes(t, v, g)
    ensures Decode(t, g) == Ok(v)
    decreases t, 1
  {
    match t
    case Scalar(_) =>
    case Tuple(pair, ts) =>
      forall k | 0 <= k < |ts| ensures Decode(ts[k], g.children[k]) == Ok(v.elems[k]) {
        RoundTrip(ts[k], v.elems[k], g.children[k]);
      }
      TupleReadsAs(pair, ts, g, v.elems);
    case Vector(e) =>
      forall k | 0 <= k < |v.elems| ensures Decode(e, g.children[k]) == Ok(v.elems[k]) {
        RoundTrip(e, v.elems[k], g.children[k]);
      }
      VectorReadsAs(e, g, v.elems);
    case Map(_, _, _) => RoundTripMap(t, v, g);
    case Variant(_) => RoundTripVariant(t, v, g);
  }

  lemma {:induction false} RoundTripMap(t: CType, v: CValue, g: GVariant)
    requires t.Map? && Faithful(t) && Supported(t) && Encodes(t, v, g)
    ensures Decode(t, g) == Ok(v)
    decreases t, 0
  {
    var m := v.entries;
    var order := OrderOf(t, v, g);
    EncodingTyped(t, v, g);
    forall k | 0 <= k < |order|
      ensures DecodeEntry(t.key, t.mapped, g.children[k]) == Ok((order[k], m[order[k]]))
    {
      RoundTripEntry(t.key, t.mapped, m, order, g.children, k);
    }
    MapComesBack(t.hashed, t.key, t.mapped, g, order, m);
  }

  lemma MapComesBack(hashed: bool, key: Basic, mapped: CType, g: GVariant, order: seq<Atom>, m: map<Atom, CValue>)
    requires TypeOf(g) == WArray(WEntry(WBasic(OnWire(key)), TypeOnWire(mapped)))
    requires IsOrder(order, m.Keys) && |order| == |g.children|
    requires forall k | 0 <= k < |order| :: DecodeEntry(key, mapped, g.children[k]) == Ok((order[k], m[order[k]]))
    ensures Decode(Map(hashed, key, mapped), g) == Ok(MapV(m))
  {
    var ps := Bindings(order, m);
    MapReadsAs(hashed, key, mapped, g, ps);
    OrderBinds(order, m, ps);
  }

  lemma {:induction false} RoundTripEntry(key: Basic, mapped: CType, m: map<Atom, CValue>, order: seq<Atom>,
                                          gs: seq<GVariant>, k: nat)
    requires EncodesEntries(key, mapped, m, order, gs) && k < |gs|
    requires key != CStr && Faithful(mapped) && Supported(mapped)
    ensures k < |order| && order[k] in m && DecodeEntry(key, mapped, gs[k]) == Ok((order[k], m[order[k]]))
    decreases mapped, 2
  {
    EntryAt(key, mapped, m, order, gs, k);
    RoundTrip(mapped, m[order[k]], gs[k].mapped);
    EntryReads(key, mapped, key, order[k], gs[k]);
  }

  ghost function Bindings(order: seq<Atom>, m: map<Atom, CValue>): seq<(Atom, CValue)>
    requires forall k | 0 <= k < |order| :: order[k] in m
  {
    seq(|order|, k requires 0 <= k < |order| => (order[k], m[order[k]]))
  }

  lemma OrderBinds(order: seq<Atom>, m: map<Atom, CValue>, ps: seq<(Atom, CValue)>)
    requires IsOrder(order, m.Keys) && |ps| == |order|
    requires forall k | 0 <= k < |ps| :: ps[k] == (order[k], m[order[k]])
    ensures InsertAll(ps) == m
  {
    forall a | a in m ensures Bound(ps, a) {
      var k :| 0 <= k < |order| && order[k] == a;
      assert ps[k].0 == a;
    }
    DistinctBindings(ps, m);
  }

  lemma {:induction false} RoundTripVariant(t: CType, v: CValue, g: GVariant)
    requires t.Variant? && Faithful(t) && Supported(t) && Encodes(t, v, g)
    ensures Decode(t, g) == Ok(v)
    decreases t, 0
  {
    var alts, i, x, c := t.alts, v.index, v.held, g.child;
    RoundTrip(alts[i], x, c);
    OwnAttempt(alts[i], x, c);
    EncodingTyped(alts[i], x, c);
    forall j | 0 <= j < |alts| && j != i ensures Attempt(alts[j], c) == Skipped {
      OnlyOwnPattern(alts, i, j);
      AttemptCases(alts, c, j);
    }
    VariantKeepsAlternative(alts, i, x, c);
  }

  /** What is written for one alternative is matched by no other. */
  lemma OnlyOwnPattern(alts: seq<CType>, i: nat, j: nat)
    requires Faithful(Variant(alts)) && i < |alts| && j < |alts| && i != j
    ensures !Selects(alts, j, TypeOnWire(alts[i]))
  {
    OwnPattern(alts[i]);
    assert Selects(alts, i, TypeOnWire(alts[i]));
  }

  /** Inserting every binding of `m` once, in any order, rebuilds `m`. */
  lemma DistinctBindings(ps: seq<(Atom, CValue)>, m: map<Atom, CValue>)
    requires forall i, j | 0 <= i < j < |ps| :: ps[i].0 != ps[j].0
    requires forall k | 0 <= k < |ps| :: ps[k].0 in m && m[ps[k].0] == ps[k].1
    requires forall a | a in m :: Bound(ps, a)
    ensures InsertAll(ps) == m
  {
    forall a ensures a in InsertAll(ps) <==> a in m {
      InsertAllKeys(ps, a);
      if Bound(ps, a) {
        var k :| 0 <= k < |ps| && ps[k].0 == a;
        assert a in m;
      }
    }
    forall a | a in m ensures InsertAll(ps)[a] == m[a] {
      var k :| 0 <= k < |ps| && ps[k].0 == a;
      FirstBindingWins(ps, k);
    }
  }

  // ---------------------------------------------------------------- necessity

  /** Some iteration order of a set of keys. */
  lemma {:induction false} SomeOrder(keys: set<Atom>) returns (order: seq<Atom>)
    ensures IsOrder(order, keys)
    decreases |keys|
  {
    if keys == {} {
      order := [];
    } else {
      var a :| a in keys;
      var rest := SomeOrder(keys - {a});
      order := [a] + rest;
      forall b | b in keys ensures b in order {
        if b != a { assert b in keys - {a}; }
      }
    }
  }

  function SampleAtom(b: Basic): (a: Atom)
    ensures AtomFits(b, a)
  {
    match b
    case Bool => BoolA(false)
    case Float => FloatA(0)
    case Double => DoubleA(Widened(0))
    case Str => TextA("")
    case CStr => TextA("")
    case ObjectPath => TextA("/")
    case _ => IntA(0)
  }

  /** Every supported type has a value that can be written. */
  lemma {:induction false} Sample(t: CType) returns (v: CValue, g: GVariant)
    requires Supported(t)
    ensures Encodes(t, v, g)
    ensures t.Vector? || t.Map? ==> Children(g) == []
    ensures t.Variant? ==> |Children(g)| == 1
    decreases t
  {
    match t
    case Scalar(b) =>
      v, g := Atomic(SampleAtom(b)), Leaf(b, SampleAtom(b));
    case Tuple(_, ts) =>
      var vs, gs := SampleAll(ts);
      v, g := TupleV(vs), GTuple(gs);
    case Vector(e) =>
      v, g := VectorV([]), GArray(TypeOnWire(e), []);
    case Map(_, key, m) =>
      v, g := MapV(map[]), GArray(WEntry(WBasic(OnWire(key)), TypeOnWire(m)), []);
      assert IsOrder([], v.entries.Keys) && EncodesEntries(key, m, v.entries, [], g.children);
    case Variant(alts) =>
      var x, c := Sample(alts[0]);
      v, g := VariantV(0, x), GBoxed(c);
  }

  lemma {:induction false} SampleAll(ts: seq<CType>) returns (vs: seq<CValue>, gs: seq<GVariant>)
    requires forall k | 0 <= k < |ts| :: Supported(ts[k])
    ensures |vs| == |ts| == |gs| && forall k | 0 <= k < |ts| :: Encodes(ts[k], vs[k], gs[k])
    decreases ts
  {
    if ts == [] {
      vs, gs := [], [];
    } else {
      var v, g := Sample(ts[0]);
      var vs', gs' := SampleAll(ts[1..]);
      vs, gs := [v] + vs', [g] + gs';
      forall k | 0 <= k < |ts| ensures Encodes(ts[k], vs[k], gs[k]) {
        if k > 0 { assert ts[k] == ts[1..][k - 1]; }
      }
    }
  }

  /** A tuple whose `k`-th element is the given one. */
  lemma SampleTuple(ts: seq<CType>, k: nat, x: CValue, c: GVariant) returns (v: CValue, g: GVariant)
    requires forall i | 0 <= i < |ts| :: Supported(ts[i])
    requires k < |ts| && Encodes(ts[k], x, c)
    ensures v.TupleV? && |v.elems| == |ts| && v.elems[k] == x
    ensures g.GTuple? && |g.children| == |ts| && g.children[k] == c
    ensures forall pair :: Encodes(Tuple(pair, ts), v, g)
  {
    var vs, gs := SampleAll(ts);
    v, g := TupleV(vs[k := x]), GTuple(gs[k := c]);
  }

  /** A map with one entry, bound to the given value. */
  lemma SampleMap(hashed: bool, key: Basic, m: CType, x: CValue, c: GVariant) returns (v: CValue, g: GVariant)
    requires Encodes(m, x, c)
    ensures Encodes(Map(hashed, key, m), v, g)
    ensures v == MapV(map[SampleAtom(key) := x])
    ensures g == GArray(WEntry(WBasic(OnWire(key)), TypeOnWire(m)), [GEntry(Leaf(key, SampleAtom(key)), c)])
  {
    var a := SampleAtom(key);
    v := MapV(map[a := x]);
    g := GArray(WEntry(WBasic(OnWire(key)), TypeOnWire(m)), [GEntry(Leaf(key, a), c)]);
    assert IsOrder([a], v.entries.Keys);
    assert EncodesEntries(key, m, v.entries, [a], g.children);
  }

  /** A value of type `t` that cannot be read at type `u`. */
  lemma {:induction false} Unreadable(u: CType, t: CType) returns (x: CValue, g: GVariant)
    requires !SafeRead(u, t) && Supported(u) && Supported(t)
    ensures Encodes(t, x, g) && Decode(u, g).Fault?
    decreases u, 2
  {
    match u
    case Scalar(_) =>
      x, g := Sample(t);
      EncodingTyped(t, x, g);
    case Tuple(_, _) => x, g := UnreadableTuple(u, t);
    case Vector(_) => x, g := UnreadableVector(u, t);
    case Map(_, _, _) => x, g := UnreadableMap(u, t);
    case Variant(_) => x, g := UnreadableVariant(u, t);
  }

  lemma {:induction false} UnreadableVector(u: CType, t: CType) returns (x: CValue, g: GVariant)
    requires u.Vector? && !SafeRead(u, t) && Supported(u) && Supported(t)
    ensures Encodes(t, x, g) && Decode(u, g).Fault?
    decreases u, 1
  {
    if t.Vector? && TypeOnWire(u.elem) == TypeOnWire(t.elem) {
      var x', c := Unreadable(u.elem, t.elem);
      x, g := VectorV([x']), GArray(TypeOnWire(t.elem), [c]);
      assert g.children[0] == c;
      VectorReads(u.elem, g);
    } else {
      x, g := Sample(t);
      EncodingTyped(t, x, g);
    }
  }

  lemma {:induction false} UnreadableMap(u: CType, t: CType) returns (x: CValue, g: GVariant)
    requires u.Map? && !SafeRead(u, t) && Supported(u) && Supported(t)
    ensures Encodes(t, x, g) && Decode(u, g).Fault?
    decreases u, 1
  {
    if t.Map? && TypeOnWire(u) == TypeOnWire(t) {
      var x', c := Unreadable(u.mapped, t.mapped);
      x, g := SampleMap(t.hashed, t.key, t.mapped, x', c);
      MapReads(u.hashed, u.key, u.mapped, g);
      EntryReads(u.key, u.mapped, t.key, SampleAtom(t.key), g.children[0]);
    } else {
      x, g := Sample(t);
      EncodingTyped(t, x, g);
    }
  }

  lemma {:induction false} UnreadableTuple(u: CType, t: CType) returns (x: CValue, g: GVariant)
    requires u.Tuple? && !SafeRead(u, t) && Supported(u) && Supported(t)
    ensures Encodes(t, x, g) && Decode(u, g).Fault?
    decreases u, 1
  {
    var us := u.elems;
    if t.Tuple? && |us| <= |t.elems| {
      var k :| 0 <= k < |us| && !SafeRead(us[k], t.elems[k]);
      var x', c := Unreadable(us[k], t.elems[k]);
      x, g := SampleTuple(t.elems, k, x', c);
      assert Encodes(Tuple(t.pair, t.elems), x, g);
      UnreadableChild(u.pair, us, g, k);
    } else if t.Variant? && |us| == 1 {
      var k :| 0 <= k < |t.alts| && !SafeRead(us[0], t.alts[k]);
      var x', c := Unreadable(us[0], t.alts[k]);
      x, g := VariantV(k, x'), GBoxed(c);
      UnreadableChild(u.pair, us, g, 0);
    } else {
      x, g := Sample(t);
      TupleReads(u.pair, us, g);
    }
  }

  lemma UnreadableChild(pair: bool, us: seq<CType>, g: GVariant, k: nat)
    requires k < |us| && k < |Children(g)| && Decode(us[k], Children(g)[k]).Fault?
    ensures Decode(Tuple(pair, us), g).Fault?
  {
    TupleReads(pair, us, g);
  }

  lemma {:induction false} UnreadableVariant(u: CType, t: CType) returns (x: CValue, g: GVariant)
    requires u.Variant? && !SafeRead(u, t) && Supported(u) && Supported(t)
    ensures Encodes(t, x, g) && Decode(u, g).Fault?
    decreases u, 1
  {
    if t.Tuple? && t.elems != [] {
      var x', c, j := Unchoosable(u.alts, t.elems[0]);
      x, g := SpoilingTuple(u.alts, t, x', c, j);
    } else if t.Variant? {
      var k :| 0 <= k < |t.alts| && !SafeChoice(u.alts, t.alts[k]);
      var x', c, j := Unchoosable(u.alts, t.alts[k]);
      x, g := SpoilingVariant(u.alts, t.alts, k, x', c, j);
    } else {
      x, g := Childless(u.alts, t);
    }
  }

  lemma SpoilingVariant(alts: seq<CType>, ts: seq<CType>, k: nat, x': CValue, c: GVariant, j: nat)
    returns (x: CValue, g: GVariant)
    requires k < |ts| && Encodes(ts[k], x', c) && j < |alts| && Spoiled(Attempt(alts[j], c))
    ensures Encodes(Variant(ts), x, g) && Decode(Variant(alts), g).Fault?
  {
    x, g := VariantV(k, x'), GBoxed(c);
    SpoiledChoice(alts, c, j, g);
  }

  lemma Childless(alts: seq<CType>, t: CType) returns (x: CValue, g: GVariant)
    requires Supported(t) && !t.Variant? && (t.Tuple? ==> t.elems == [])
    ensures Encodes(t, x, g) && Decode(Variant(alts), g).Fault?
  {
    x, g := Sample(t);
    assert Children(g) == [];
    VariantReads(alts, g);
  }

  lemma SpoilingTuple(alts: seq<CType>, t: CType, x': CValue, c: GVariant, j: nat) returns (x: CValue, g: GVariant)
    requires t.Tuple? && t.elems != [] && Supported(t) && Encodes(t.elems[0], x', c)
    requires j < |alts| && Spoiled(Attempt(alts[j], c))
    ensures Encodes(t, x, g) && Decode(Variant(alts), g).Fault?
  {
    x, g := SampleTuple(t.elems, 0, x', c);
    assert Encodes(Tuple(t.pair, t.elems), x, g);
    SpoiledChoice(alts, c, j, g);
  }

  /** A value of type `t` that spoils the choice among `alts`, and the alternative that does. */
  lemma {:induction false} Unchoosable(alts: seq<CType>, t: CType) returns (x: CValue, c: GVariant, j: nat)
    requires !SafeChoice(alts, t) && Supported(t)
    requires forall k | 0 <= k < |alts| :: Supported(alts[k])
    ensures Encodes(t, x, c) && j < |alts| && Spoiled(Attempt(alts[j], c))
    decreases alts, 1
  {
    j :| 0 <= j < |alts| && !(PatternOf(alts[j]).Some? && (Selects(alts, j, TypeOnWire(t)) ==> SafeRead(alts[j], t)));
    if PatternOf(alts[j]).None? {
      x, c := Sample(t);
    } else {
      x, c := Unreadable(alts[j], t);
    }
    EncodingTyped(t, x, c);
    AttemptCases(alts, c, j);
  }

  /** A value of an unfaithful type that does not come back. */
  lemma {:induction false} Unfaithful(t: CType) returns (v: CValue, g: GVariant)
    requires !Faithful(t) && Supported(t)
    ensures Encodes(t, v, g) && Decode(t, g) != Ok(v)
    decreases t
  {
    match t
    case Scalar(b) =>
      v, g := Sample(t);
    case Tuple(pair, ts) =>
      var k :| 0 <= k < |ts| && !Faithful(ts[k]);
      var x, c := Unfaithful(ts[k]);
      v, g := SampleTuple(ts, k, x, c);
      TupleReadsAs(pair, ts, g, v.elems);
    case Vector(e) =>
      var x, c := Unfaithful(e);
      v, g := VectorV([x]), GArray(TypeOnWire(e), [c]);
      VectorReadsAs(e, g, v.elems);
      assert g.children[0] == c;
    case Map(hashed, key, m) =>
      var x, c := Unfaithful(m);
      v, g := SampleMap(hashed, key, m, x, c);
      UnfaithfulEntry(hashed, key, m, x, c, g);
    case Variant(alts) =>
      v, g := UnfaithfulVariant(alts);
  }

  lemma UnfaithfulEntry(hashed: bool, key: Basic, m: CType, x: CValue, c: GVariant, g: GVariant)
    requires key != CStr && Encodes(m, x, c) && Decode(m, c) != Ok(x)
    requires g == GArray(WEntry(WBasic(OnWire(key)), TypeOnWire(m)), [GEntry(Leaf(key, SampleAtom(key)), c)])
    ensures Decode(Map(hashed, key, m), g) != Ok(MapV(map[SampleAtom(key) := x]))
  {
    MapReads(hashed, key, m, g);
    EntryReads(key, m, key, SampleAtom(key), g.children[0]);
    if Decode(m, c).Ok? {
      var p := (SampleAtom(key), Decode(m, c).value);
      MapReadsAs(hashed, key, m, g, [p]);
      FirstBindingWins([p], 0);
    }
  }

  lemma {:induction false} UnfaithfulVariant(alts: seq<CType>) returns (v: CValue, g: GVariant)
    requires !Faithful(Variant(alts)) && Supported(Variant(alts))
    ensures Encodes(Variant(alts), v, g) && Decode(Variant(alts), g) != Ok(v)
    decreases alts
  {
    if i :| 0 <= i < |alts| && !Faithful(alts[i]) {
      var x, c := Unfaithful(alts[i]);
      v, g := VariantV(i, x), GBoxed(c);
      LostAlternative(alts, i, x, c);
    } else if i :| 0 <= i < |alts| && PatternOf(alts[i]).None? {
      var x, c := Sample(alts[i]);
      v, g := VariantV(i, x), GBoxed(c);
      SpoiledChoice(alts, c, i, g);
    } else {
      var i, j, w :| 0 <= i < j < |alts| && Selects(alts, i, w) && Selects(alts, j, w);
      v, g := ConfusedVariant(alts, i, j, w);
    }
  }

  /** Of two alternatives whose patterns overlap, one does not come back: the later one overtakes
      the earlier, or else the earlier is a vector that cannot read the map of the later. */
  lemma ConfusedVariant(alts: seq<CType>, i: nat, j: nat, w: WireType) returns (v: CValue, g: GVariant)
    requires i < j < |alts| && Selects(alts, i, w) && Selects(alts, j, w)
    requires Supported(alts[i]) && Supported(alts[j])
    ensures Encodes(Variant(alts), v, g) && Decode(Variant(alts), g) != Ok(v)
  {
    if Selects(alts, j, TypeOnWire(alts[i])) {
      var x, c := Sample(alts[i]);
      v, g := VariantV(i, x), GBoxed(c);
      OvertakenAlternative(alts, i, j, x, c);
    } else {
      OverlapIsVectorMap(alts[i], alts[j], w);
      var x, c := Sample(alts[j]);
      v, g := VariantV(j, x), GBoxed(c);
      EncodingTyped(alts[j], x, c);
      NeverAnEntry(alts[i].elem);
      AttemptCases(alts, c, i);
      SpoiledChoice(alts, c, i, g);
    }
  }

  lemma OverlapIsVectorMap(a: CType, b: CType, w: WireType)
    requires PatternOf(a).Some? && PatternOf(b).Some?
    requires Matches(PatternOf(a).value, w) && Matches(PatternOf(b).value, w)
    requires !Matches(PatternOf(b).value, TypeOnWire(a))
    ensures a.Vector? && b.Map?
  {
  }

  lemma NeverAnEntry(t: CType)
    ensures !TypeOnWire(t).WEntry?
  {
  }

  lemma SpoiledChoice(alts: seq<CType>, c: GVariant, j: nat, g: GVariant)
    requires j < |alts| && Spoiled(Attempt(alts[j], c)) && Children(g) != [] && Children(g)[0] == c
    ensures Decode(Variant(alts), g).Fault?
  {
    VariantReads(alts, g);
  }

  lemma LostAlternative(alts: seq<CType>, i: nat, x: CValue, c: GVariant)
    requires i < |alts| && Encodes(alts[i], x, c) && Decode(alts[i], c) != Ok(x)
    ensures Decode(Variant(alts), GBoxed(c)) != Ok(VariantV(i, x))
  {
    OwnAttempt(alts[i], x, c);
    VariantKeepsAlternative(alts, i, x, c);
  }

  lemma OvertakenAlternative(alts: seq<CType>, i: nat, j: nat, x: CValue, c: GVariant)
    requires i < j < |alts| && Encodes(alts[i], x, c) && Selects(alts, j, TypeOnWire(alts[i]))
    ensures Decode(Variant(alts), GBoxed(c)) != Ok(VariantV(i, x))
  {
    EncodingTyped(alts[i], x, c);
    AttemptCases(alts, c, j);
    VariantKeepsAlternative(alts, i, x, c);
  }

  // ---------------------------------------------------------------- which alternative comes back

  /** What is written at `t` is taken for `u` in a variant: the C++ types alone decide. */
  predicate Overtakes(u: CType, t: CType) {
    match (u, t)
    case (Scalar(a), Scalar(b)) => OnWire(a) == OnWire(b)
    case (Vector(_), Vector(_)) => true
    case (Vector(_), Map(_, _, _)) => true
    case (Map(_, _, _), Map(_, _, _)) => true
    case (Tuple(_, _), Tuple(_, _)) => true
    case (Variant(_), Variant(_)) => true
    case _ => false
  }

  /** unix_fd_t and const char* cannot be told by their type at run time. */
  predicate Recognized(t: CType) {
    t != Scalar(UnixFd) && t != Scalar(CStr)
  }

  lemma OvertakesIsSelects(alts: seq<CType>, j: nat, t: CType)
    requires j < |alts|
    ensures PatternOf(alts[j]).Some? <==> Recognized(alts[j])
    ensures Recognized(alts[j]) ==> (Selects(alts, j, TypeOnWire(t)) <==> Overtakes(alts[j], t))
  {
    if t.Vector? { NeverAnEntry(t.elem); }
  }

  /** An alternative that round-trips comes back if and only if no later one overtakes it and every
      earlier one that does can read it. */
  lemma WhichAlternative(alts: seq<CType>, i: nat, x: CValue, c: GVariant)
    requires i < |alts| && forall k | 0 <= k < |alts| :: Recognized(alts[k])
    requires Supported(alts[i]) && Faithful(alts[i]) && Encodes(alts[i], x, c)
    ensures Decode(Variant(alts), GBoxed(c)) == Ok(VariantV(i, x)) <==>
      && (forall j | i < j < |alts| :: !Overtakes(alts[j], alts[i]))
      && (forall j | 0 <= j < i && Overtakes(alts[j], alts[i]) :: Decode(alts[j], c).Ok?)
  {
    RoundTrip(alts[i], x, c);
    OwnAttempt(alts[i], x, c);
    OvertakesIsSelects(alts, i, alts[i]);
    VariantKeepsAlternative(alts, i, x, c);
    forall j | 0 <= j < |alts|
      ensures Attempt(alts[j], c) == Skipped <==> !Overtakes(alts[j], alts[i])
      ensures Spoiled(Attempt(alts[j], c)) <==> Overtakes(alts[j], alts[i]) && Decode(alts[j], c).Fault?
    {
      AttemptAsTyped(alts, j, alts[i], x, c);
    }
  }

  lemma AttemptAsTyped(alts: seq<CType>, j: nat, t: CType, x: CValue, c: GVariant)
    requires j < |alts| && Recognized(alts[j]) && Encodes(t, x, c)
    ensures Attempt(alts[j], c) == Skipped <==> !Overtakes(alts[j], t)
    ensures Spoiled(Attempt(alts[j], c)) <==> Overtakes(alts[j], t) && Decode(alts[j], c).Fault?
  {
    EncodingTyped(t, x, c);
    OvertakesIsSelects(alts, j, t);
    AttemptCases(alts, c, j);
  }

  /** A variant with an alternative that cannot be recognized is never decoded. */
  lemma UnrecognizedNeverDecodes(alts: seq<CType>, j: nat, g: GVariant)
    requires j < |alts| && !Recognized(alts[j])
    ensures Decode(Variant(alts), g).Fault?
  {
    VariantReads(alts, g);
    if Children(g) != [] { AttemptCases(alts, Children(g)[0], j); }
  }

  /** Faithfulness in terms of the C++ types alone: at every depth all alternatives of a variant can
      be recognized and none overtakes another. */
  ghost predicate Distinguished(t: CType)
    decreases t
  {
    match t
    case Scalar(b) => b != CStr
    case Tuple(_, ts) => forall k | 0 <= k < |ts| :: Distinguished(ts[k])
    case Vector(e) => Distinguished(e)
    case Map(_, _, m) => Distinguished(m)
    case Variant(alts) =>
      && (forall i | 0 <= i < |alts| :: Distinguished(alts[i]) && Recognized(alts[i]))
      && forall i, j | 0 <= i < |alts| && 0 <= j < |alts| && i != j :: !Overtakes(alts[j], alts[i])
  }

  lemma {:induction false} FaithfulIsDistinguished(t: CType)
    ensures Faithful(t) <==> Distinguished(t)
    decreases t
  {
    match t
    case Scalar(_) =>
    case Tuple(_, ts) =>
      forall k | 0 <= k < |ts| ensures Faithful(ts[k]) <==> Distinguished(ts[k]) { FaithfulIsDistinguished(ts[k]); }
    case Vector(e) => FaithfulIsDistinguished(e);
    case Map(_, _, m) => FaithfulIsDistinguished(m);
    case Variant(alts) =>
      forall k | 0 <= k < |alts|
        ensures Faithful(alts[k]) <==> Distinguished(alts[k])
        ensures PatternOf(alts[k]).Some? <==> Recognized(alts[k])
      {
        FaithfulIsDistinguished(alts[k]);
        OvertakesIsSelects(alts, k, alts[k]);
      }
      if forall k | 0 <= k < |alts| :: Recognized(alts[k]) {
        DisjointIsApart(alts);
      }
  }

  ghost predicate Disjoint(alts: seq<CType>) {
    forall i, j, w | 0 <= i < j < |alts| :: !(Selects(alts, i, w) && Selects(alts, j, w))
  }

  lemma DisjointIsApart(alts: seq<CType>)
    requires forall k | 0 <= k < |alts| :: Recognized(alts[k])
    ensures Disjoint(alts) <==>
      forall i, j | 0 <= i < |alts| && 0 <= j < |alts| && i != j :: !Overtakes(alts[j], alts[i])
  {
    if Disjoint(alts) {
      forall i, j | 0 <= i < |alts| && 0 <= j < |alts| && i != j ensures !Overtakes(alts[j], alts[i]) {
        OvertakesIsSelects(alts, j, alts[i]);
        OvertakesIsSelects(alts, i, alts[i]);
        OwnPattern(alts[i]);
        assert Selects(alts, i, TypeOnWire(alts[i]));
      }
    } else {
      var i, j, w :| 0 <= i < j < |alts| && Selects(alts, i, w) && Selects(alts, j, w);
      OvertakesIsSelects(alts, j, alts[i]);
      OvertakesIsSelects(alts, i, alts[j]);
      if !Overtakes(alts[j], alts[i]) { OverlapIsVectorMap(alts[i], alts[j], w); }
    }
  }

  /** A string or an object path can be read as either; any other scalar from its own wire type only. */
  lemma ScalarReadsIff(b: Basic, b': Basic, a: Atom)
    requires AtomFits(b', a)
    ensures Decode(Scalar(b), Leaf(b', a)).Ok? <==>
      && b != CStr
      && (TypeOnWire(Scalar(b)) == TypeOnWire(Scalar(b')) || (b in {Str, ObjectPath} && b' in {Str, CStr, ObjectPath}))
    ensures b in {Str, ObjectPath} && b' in {Str, CStr, ObjectPath} ==> Decode(Scalar(b), Leaf(b', a)) == Ok(Atomic(a))
  {
  }

  /** A double read as a float is rounded to the nearest one, and exact for what a float wrote. */
  lemma FloatReadsNearest(d: Float64)
    ensures Decode(Scalar(Float), Leaf(Double, DoubleA(d)))
         == Ok(Atomic(FloatA(if d.Widened? then d.single else d.nearest)))
    ensures forall f :: Decode(Scalar(Float), Leaf(Float, FloatA(f))) == Ok(Atomic(FloatA(f)))
  {
  }

  /** The same type with tuples for pairs, ordered maps for hashed ones and strings for literals. */
  function Plain(t: CType): CType
    decreases t
  {
    match t
    case Scalar(b) => Scalar(if b.CStr? then Str else b)
    case Tuple(_, ts) => Tuple(false, seq(|ts|, k requires 0 <= k < |ts| => Plain(ts[k])))
    case Vector(e) => Vector(Plain(e))
    case Map(_, key, mapped) => Map(false, key, Plain(mapped))
    case Variant(alts) => Variant(seq(|alts|, k requires 0 <= k < |alts| => Plain(alts[k])))
  }

  lemma {:induction false} PlainIsAlike(t: CType)
    ensures Alike(Plain(t), t)
    decreases t
  {
    match t
    case Scalar(_) =>
    case Tuple(_, ts) => forall k | 0 <= k < |ts| ensures Alike(Plain(ts[k]), ts[k]) { PlainIsAlike(ts[k]); }
    case Vector(e) => PlainIsAlike(e);
    case Map(_, _, m) => PlainIsAlike(m);
    case Variant(alts) => forall k | 0 <= k < |alts| ensures Alike(Plain(alts[k]), alts[k]) { PlainIsAlike(alts[k]); }
  }

  /** What any type writes, literals included, its plain type reads, if that one round-trips. */
  lemma PlainReads(t: CType, v: CValue, g: GVariant)
    requires Encodes(t, v, g) && Supported(Plain(t)) && Distinguished(Plain(t))
    ensures Decode(Plain(t), g) == Ok(v)
  {
    PlainIsAlike(t);
    AlikeEncodes(Plain(t), t, v, g);
    FaithfulIsDistinguished(Plain(t));
    RoundTrip(Plain(t), v, g);
  }

  // ---------------------------------------------------------------- exactness

  ghost predicate Survives(t: CType, v: CValue, g: GVariant) {
    Encodes(t, v, g) ==> Decode(t, g) == Ok(v)
  }

  lemma FaithfulSurvives(t: CType, v: CValue, g: GVariant)
    requires Supported(t) && Faithful(t)
    ensures Survives(t, v, g)
  {
    if Encodes(t, v, g) { RoundTrip(t, v, g); }
  }

  lemma UnfaithfulFails(t: CType) returns (v: CValue, g: GVariant)
    requires Supported(t) && !Faithful(t)
    ensures !Survives(t, v, g)
  {
    v, g := Unfaithful(t);
  }

  /** The static condition is exact: a type is faithful, its variants' alternatives all recognized and
      none overtaking another, if and only if every value of it comes back from every encoding. */
  lemma FaithfulIsExact(t: CType)
    requires Supported(t)
    ensures Faithful(t) <==> forall v, g :: Survives(t, v, g)
    ensures Distinguished(t) <==> forall v, g :: Survives(t, v, g)
  {
    FaithfulIsDistinguished(t);
    if Faithful(t) {
      forall v, g ensures Survives(t, v, g) {
        FaithfulSurvives(t, v, g);
      }
    } else {
      var v, g := UnfaithfulFails(t);
    }
  }

  ghost predicate ReadAt(u: CType, t: CType, x: CValue, g: GVariant) {
    Encodes(t, x, g) ==> Decode(u, g).Ok?
  }

  lemma SafelyReadAt(u: CType, t: CType, x: CValue, g: GVariant)
    requires Supported(u) && SafeRead(u, t)
    ensures ReadAt(u, t, x, g)
  {
    if Encodes(t, x, g) { SafeReadSound(u, t, x, g); }
  }

  /** So is the check of one type against another: whatever is written at `t` can be read at `u` if
      and only if `SafeRead(u, t)`. */
  lemma SafeReadIsExact(u: CType, t: CType)
    requires Supported(u) && Supported(t)
    ensures SafeRead(u, t) <==> forall x, g :: ReadAt(u, t, x, g)
  {
    if SafeRead(u, t) {
      forall x, g ensures ReadAt(u, t, x, g) {
        SafelyReadAt(u, t, x, g);
      }
    } else {
      var x, g := Unreadable(u, t);
      assert !ReadAt(u, t, x, g);
    }
  }

  // ---------------------------------------------------------------- types that write alike

  /** What can be read at a type is read the same at every type that writes alike. */
  lemma {:induction false} AlikeDecodes(u: CType, t: CType, g: GVariant)
    requires Alike(u, t) && Decode(t, g).Ok?
    ensures Decode(u, g) == Decode(t, g)
    decreases t, 1
  {
    match t
    case Scalar(_) =>
    case Tuple(pair, ts) =>
      var vs := TupleParts(pair, ts, g);
      forall k | 0 <= k < |ts| ensures Decode(u.elems[k], Children(g)[k]) == Ok(vs[k]) {
        AlikeDecodes(u.elems[k], ts[k], Children(g)[k]);
      }
      TupleReadsAs(u.pair, u.elems, g, vs);
    case Vector(e) =>
      var vs := VectorParts(e, g);
      AlikeOnWire(u.elem, e);
      forall k | 0 <= k < |vs| ensures Decode(u.elem, g.children[k]) == Ok(vs[k]) {
        AlikeDecodes(u.elem, e, g.children[k]);
      }
      VectorReadsAs(u.elem, g, vs);
    case Map(hashed, key, mapped) =>
      var ps := MapParts(hashed, key, mapped, g);
      AlikeOnWire(u.mapped, mapped);
      forall k | 0 <= k < |ps| ensures DecodeEntry(key, u.mapped, g.children[k]) == Ok(ps[k]) {
        AlikeDecodes(u.mapped, mapped, Children(g.children[k])[1]);
      }
      MapReadsAs(u.hashed, key, u.mapped, g, ps);
    case Variant(alts) => AlikeVariants(u.alts, alts, g);
  }

  lemma {:induction false} AlikeVariants(us: seq<CType>, ts: seq<CType>, g: GVariant)
    requires Alike(Variant(us), Variant(ts)) && Decode(Variant(ts), g).Ok?
    ensures Decode(Variant(us), g) == Decode(Variant(ts), g)
    decreases ts
  {
    VariantReads(ts, g);
    var c := Children(g)[0];
    forall j | 0 <= j < |ts| ensures Attempt(us[j], c) == Attempt(ts[j], c) {
      assert !Spoiled(Attempt(ts[j], c));
      if Attempt(ts[j], c).Assigned? { AlikeDecodes(us[j], ts[j], c); }
    }
    assert Attempts(us, c) == Attempts(ts, c);
    AlikeDefaults(Variant(us), Variant(ts));
    assert Decode(Variant(us), g) == Extract(Attempts(us, c), 0, Default(Variant(us)));
    assert Decode(Variant(ts), g) == Extract(Attempts(ts, c), 0, Default(Variant(ts)));
  }

  lemma {:induction false} AlikeDefaults(u: CType, t: CType)
    requires Alike(u, t)
    ensures Default(u) == Default(t)
    decreases t
  {
    match t
    case Scalar(_) =>
    case Tuple(_, ts) =>
      forall k | 0 <= k < |ts| ensures Default(u.elems[k]) == Default(ts[k]) { AlikeDefaults(u.elems[k], ts[k]); }
    case Vector(_) =>
    case Map(_, _, _) =>
    case Variant(alts) => if alts != [] { AlikeDefaults(u.alts[0], alts[0]); }
  }

  // ---------------------------------------------------------------- consequences

  /** Two encodings of one map differ at most in the order of their entries, and decode alike. */
  lemma OrderDoesNotMatter(t: CType, v: CValue, g: GVariant, g': GVariant)
    requires Supported(t) && Faithful(t) && Encodes(t, v, g) && Encodes(t, v, g')
    ensures Decode(t, g) == Decode(t, g') == Ok(v)
  {
    RoundTrip(t, v, g);
    RoundTrip(t, v, g');
  }

  /** The promise fails for std::variant<float, double>: a float comes back as a double. */
  lemma FloatDoubleVariant(f: Float32)
    ensures var t := Variant([Scalar(Float), Scalar(Double)]);
      && Encodes(t, VariantV(0, Atomic(FloatA(f))), GBoxed(GLeaf(Double, DoubleA(Widened(f)))))
      && Decode(t, GBoxed(GLeaf(Double, DoubleA(Widened(f))))) == Ok(VariantV(1, Atomic(DoubleA(Widened(f)))))
  {
    var alts := [Scalar(Float), Scalar(Double)];
    var c := GLeaf(Double, DoubleA(Widened(f)));
    DoubleReads(alts, c);
    VariantKeepsAlternative(alts, 1, Atomic(c.a), c);
  }

  lemma DoubleReads(alts: seq<CType>, c: GVariant)
    requires alts == [Scalar(Float), Scalar(Double)] && c.GLeaf? && c.b == Double && c.a.DoubleA?
    ensures Attempt(alts[0], c) == Assigned(Ok(Atomic(FloatA(Narrow(c.a.d)))))
    ensures Attempt(alts[1], c) == Assigned(Ok(Atomic(c.a)))
  {
  }
}
