/**
 Which values read off the wire can be written again. A value-initialised variant alternative may
 hold an empty object path, a tuple in a variant reads strings as object paths, and no
 std::vector<bool> with elements can be written; apart from these, decode-encode-decode is decode.
 */
module Rewriting {
  import opened Types
  import opened Codec
  import opened Fidelity

  // ---------------------------------------------------------------- what can be written

  ghost predicate CanWrite(t: CType, v: CValue) {
    exists g :: Encodes(t, v, g)
  }

  lemma {:induction false} EncodesEncodable(t: CType, v: CValue, g: GVariant)
    requires Encodes(t, v, g)
    ensures HasType(t, v) && Encodable(t, v)
    decreases t
  {
    EncodesHasType(t, v, g);
    match t
    case Scalar(_) =>
    case Tuple(_, ts) =>
      forall k | 0 <= k < |ts| ensures Encodable(ts[k], v.elems[k]) {
        EncodesEncodable(ts[k], v.elems[k], g.children[k]);
      }
    case Vector(e) =>
      forall k | 0 <= k < |v.elems| ensures Encodable(e, v.elems[k]) {
        EncodesEncodable(e, v.elems[k], g.children[k]);
      }
    case Map(_, key, mapped) =>
      var order := OrderOf(t, v, g);
      forall a | a in v.entries ensures Encodable(mapped, v.entries[a]) {
        var k :| 0 <= k < |order| && order[k] == a;
        EntryAt(key, mapped, v.entries, order, g.children, k);
        EncodesEncodable(mapped, v.entries[a], g.children[k].mapped);
      }
    case Variant(alts) => EncodesEncodable(alts[v.index], v.held, g.child);
  }

  /** An encoding of a value without elements in a std::vector<bool>. */
  lemma {:induction false} Written(t: CType, v: CValue) returns (g: GVariant)
    requires HasType(t, v) && Encodable(t, v)
    ensures Encodes(t, v, g)
    decreases t, 1
  {
    match t
    case Scalar(b) => g := Leaf(b, v.a);
    case Tuple(_, ts) =>
      var gs := WrittenAll(ts, v.elems);
      g := GTuple(gs);
    case Vector(e) =>
      var gs := WrittenEach(e, v.elems);
      g := GArray(TypeOnWire(e), gs);
    case Map(_, key, mapped) =>
      var order := SomeOrder(v.entries.Keys);
      var gs := WrittenEntries(key, mapped, v.entries, order);
      g := GArray(WEntry(WBasic(OnWire(key)), TypeOnWire(mapped)), gs);
    case Variant(alts) =>
      var c := Written(alts[v.index], v.held);
      g := GBoxed(c);
  }

  lemma {:induction false} WrittenAll(ts: seq<CType>, vs: seq<CValue>) returns (gs: seq<GVariant>)
    requires |ts| == |vs| && forall k | 0 <= k < |ts| :: HasType(ts[k], vs[k]) && Encodable(ts[k], vs[k])
    ensures |gs| == |ts| && forall k | 0 <= k < |ts| :: Encodes(ts[k], vs[k], gs[k])
    decreases ts, 0
  {
    if ts == [] {
      gs := [];
    } else {
      var g := Written(ts[0], vs[0]);
      var rest := WrittenAll(ts[1..], vs[1..]);
      gs := [g] + rest;
    }
  }

  lemma {:induction false} WrittenEach(e: CType, vs: seq<CValue>) returns (gs: seq<GVariant>)
    requires forall k | 0 <= k < |vs| :: HasType(e, vs[k]) && Encodable(e, vs[k])
    ensures |gs| == |vs| && forall k | 0 <= k < |vs| :: Encodes(e, vs[k], gs[k])
    decreases e, 2, |vs|
  {
    if vs == [] {
      gs := [];
    } else {
      var g := Written(e, vs[0]);
      var rest := WrittenEach(e, vs[1..]);
      gs := [g] + rest;
    }
  }

  lemma {:induction false} WrittenEntries(key: Basic, mapped: CType, m: map<Atom, CValue>, order: seq<Atom>)
    returns (gs: seq<GVariant>)
    requires forall k | 0 <= k < |order| ::
      order[k] in m && AtomFits(key, order[k]) && HasType(mapped, m[order[k]]) && Encodable(mapped, m[order[k]])
    ensures EncodesEntries(key, mapped, m, order, gs)
    decreases mapped, 2, |order|
  {
    if order == [] {
      gs := [];
    } else {
      var n := |order| - 1;
      var front := WrittenEntries(key, mapped, m, order[..n]);
      var g := Written(mapped, m[order[n]]);
      EntriesExtend(key, mapped, m, order[..n], front, order[n], g);
      assert order[..n] + [order[n]] == order;
      gs := front + [GEntry(Leaf(key, order[n]), g)];
    }
  }

  /** A value can be written exactly when it is one of the type and no std::vector<bool> inside it
      has elements. */
  lemma CanWriteIff(t: CType, v: CValue)
    ensures CanWrite(t, v) <==> HasType(t, v) && Encodable(t, v)
  {
    if HasType(t, v) && Encodable(t, v) {
      var g := Written(t, v);
    }
    if g :| Encodes(t, v, g) {
      EncodesEncodable(t, v, g);
    }
  }

  // ---------------------------------------------------------------- the condition on the type

  /** The value-initialised object is a value of its type: it holds no object path. */
  ghost predicate DefaultFits(t: CType)
    decreases t
  {
    match t
    case Scalar(b) => b != ObjectPath
    case Tuple(_, ts) => forall k | 0 <= k < |ts| :: DefaultFits(ts[k])
    case Vector(_) => true
    case Map(_, _, _) => true
    case Variant(alts) => alts != [] && DefaultFits(alts[0])
  }

  lemma {:induction false} DefaultHasType(t: CType)
    requires Supported(t)
    ensures HasType(t, Default(t)) <==> DefaultFits(t)
    decreases t
  {
    match t
    case Scalar(b) => assert '\0' !in "";
    case Tuple(_, ts) =>
      forall k | 0 <= k < |ts| ensures HasType(ts[k], Default(ts[k])) <==> DefaultFits(ts[k]) {
        DefaultHasType(ts[k]);
      }
      assert forall k | 0 <= k < |ts| :: Default(t).elems[k] == Default(ts[k]);
    case Vector(_) =>
    case Map(_, _, _) =>
    case Variant(alts) => DefaultHasType(alts[0]);
  }

  /** Whatever is read at type `t` is a value of `t`. When `typed`, only GVariants of the type's own
      wire type are read; a tuple in a variant is matched by any tuple. */
  ghost predicate Closed(t: CType, typed: bool)
    decreases t
  {
    match t
    case Scalar(b) => typed || b != ObjectPath
    case Tuple(_, ts) => forall k | 0 <= k < |ts| :: Closed(ts[k], typed)
    case Vector(e) => Closed(e, true)
    case Map(_, _, m) => Closed(m, true)
    case Variant(alts) =>
      && alts != [] && DefaultFits(alts[0])
      && forall j | 0 <= j < |alts| :: Closed(alts[j], !alts[j].Tuple?)
  }

  ghost predicate NoBoolVectors(t: CType)
    decreases t
  {
    match t
    case Scalar(_) => true
    case Tuple(_, ts) => forall k | 0 <= k < |ts| :: NoBoolVectors(ts[k])
    case Vector(e) => e != Scalar(Bool) && NoBoolVectors(e)
    case Map(_, _, m) => NoBoolVectors(m)
    case Variant(alts) => forall j | 0 <= j < |alts| :: NoBoolVectors(alts[j])
  }

  lemma {:induction false} NoBoolVectorsEncodable(t: CType, v: CValue)
    requires NoBoolVectors(t) && HasType(t, v)
    ensures Encodable(t, v)
    decreases t
  {
    match t
    case Scalar(_) =>
    case Tuple(_, ts) =>
      forall k | 0 <= k < |ts| ensures Encodable(ts[k], v.elems[k]) { NoBoolVectorsEncodable(ts[k], v.elems[k]); }
    case Vector(e) =>
      forall k | 0 <= k < |v.elems| ensures Encodable(e, v.elems[k]) { NoBoolVectorsEncodable(e, v.elems[k]); }
    case Map(_, _, m) =>
      forall a | a in v.entries ensures Encodable(m, v.entries[a]) { NoBoolVectorsEncodable(m, v.entries[a]); }
    case Variant(alts) => NoBoolVectorsEncodable(alts[v.index], v.held);
  }

  // ---------------------------------------------------------------- what is read, part by part

  /** Every entry of the map built comes from a binding on the wire. */
  lemma {:induction false} InsertedFrom(ps: seq<(Atom, CValue)>, a: Atom) returns (k: nat)
    requires a in InsertAll(ps)
    ensures k < |ps| && ps[k] == (a, InsertAll(ps)[a])
    decreases |ps|
  {
    var n := |ps| - 1;
    if a in InsertAll(ps[..n]) {
      k := InsertedFrom(ps[..n], a);
    } else {
      k := n;
    }
  }

  ghost predicate Picked(tries: seq<Attempted>, v: CValue) {
    v.VariantV? && v.index < |tries| && tries[v.index] == Assigned(Ok(v.held))
  }

  lemma {:induction false} ExtractPicks(tries: seq<Attempted>, i: nat, out: CValue)
    requires i <= |tries| && Extract(tries, i, out).Ok?
    ensures Extract(tries, i, out).value == out || Picked(tries, Extract(tries, i, out).value)
    decreases |tries| - i
  {
    if i < |tries| {
      ExtractPicks(tries, i + 1, if tries[i].Assigned? then VariantV(i, tries[i].o.value) else out);
    }
  }

  /** A variant holds what one of its alternatives read, or its default. */
  lemma VariantParts(alts: seq<CType>, g: GVariant)
    requires Decode(Variant(alts), g).Ok?
    ensures var v := Decode(Variant(alts), g).value;
      && Children(g) != []
      && (v == Default(Variant(alts))
          || (v.VariantV? && v.index < |alts| && Attempt(alts[v.index], Children(g)[0]) == Assigned(Ok(v.held))))
  {
    var c := Children(g)[0];
    AttemptsAt(alts, c);
    assert Decode(Variant(alts), g) == Extract(Attempts(alts, c), 0, Default(Variant(alts)));
    ExtractPicks(Attempts(alts, c), 0, Default(Variant(alts)));
  }

  lemma ChildrenWellFormed(g: GVariant)
    requires WellFormed(g)
    ensures forall k | 0 <= k < |Children(g)| :: WellFormed(Children(g)[k])
  {
  }

  // ---------------------------------------------------------------- sufficiency

  /** `g` is read at type `t`. */
  ghost predicate Received(t: CType, typed: bool, g: GVariant) {
    WellFormed(g) && (typed ==> TypeOf(g) == TypeOnWire(t)) && Decode(t, g).Ok?
  }

  /** Whatever is read at a closed type is a value of it. */
  lemma {:induction false} ReadsFit(t: CType, typed: bool, g: GVariant)
    requires Supported(t) && Closed(t, typed) && Received(t, typed, g)
    ensures HasType(t, Decode(t, g).value)
    decreases t, 1
  {
    match t
    case Scalar(b) => ScalarFits(b, typed, g);
    case Tuple(pair, ts) =>
      var vs := TupleParts(pair, ts, g);
      ChildrenWellFormed(g);
      forall k | 0 <= k < |ts| ensures HasType(ts[k], vs[k]) {
        if typed { TypedChild(pair, ts, g, k); }
        ReadsFit(ts[k], typed, Children(g)[k]);
      }
    case Vector(e) =>
      var vs := VectorParts(e, g);
      forall k | 0 <= k < |vs| ensures HasType(e, vs[k]) {
        ReadsFit(e, true, g.children[k]);
      }
    case Map(_, _, _) => MapFits(t, g);
    case Variant(alts) => VariantFits(alts, g);
  }

  lemma TypedChild(pair: bool, ts: seq<CType>, g: GVariant, k: nat)
    requires TypeOf(g) == TypeOnWire(Tuple(pair, ts)) && k < |ts|
    ensures g.GTuple? && |g.children| == |ts| && TypeOf(g.children[k]) == TypeOnWire(ts[k])
  {
    var w := TypeOf(g);
    assert w.elems[k] == TypeOnWire(ts[k]);
  }

  lemma ScalarFits(b: Basic, typed: bool, g: GVariant)
    requires Closed(Scalar(b), typed) && Received(Scalar(b), typed, g)
    ensures HasType(Scalar(b), Decode(Scalar(b), g).value)
  {
    if b == Str && g.b == ObjectPath { assert !PathChar('\0'); }
  }

  lemma {:induction false} MapFits(t: CType, g: GVariant)
    requires t.Map? && Supported(t) && Closed(t, true) && WellFormed(g) && Decode(t, g).Ok?
    ensures HasType(t, Decode(t, g).value)
    decreases t, 0
  {
    var ps := MapParts(t.hashed, t.key, t.mapped, g);
    var m := InsertAll(ps);
    forall a | a in m ensures AtomFits(t.key, a) && HasType(t.mapped, m[a]) {
      var k := InsertedFrom(ps, a);
      var e := g.children[k];
      assert WellFormed(e) && TypeOf(e) == WEntry(WBasic(OnWire(t.key)), TypeOnWire(t.mapped));
      EntryFits(t.key, t.mapped, e);
      ReadsFit(t.mapped, true, e.mapped);
    }
  }

  lemma EntryFits(key: Basic, mapped: CType, e: GVariant)
    requires WellFormed(e) && TypeOf(e) == WEntry(WBasic(OnWire(key)), TypeOnWire(mapped))
    requires DecodeEntry(key, mapped, e).Ok?
    ensures e.GEntry? && AtomFits(key, DecodeEntry(key, mapped, e).value.0)
    ensures Received(mapped, true, e.mapped) && DecodeEntry(key, mapped, e).value.1 == Decode(mapped, e.mapped).value
  {
    var cs := Children(e);
    assert cs[0] == e.key && cs[1] == e.mapped;
    assert Received(Scalar(key), true, e.key);
    ScalarFits(key, true, e.key);
  }

  lemma {:induction false} VariantFits(alts: seq<CType>, g: GVariant)
    requires Supported(Variant(alts)) && Closed(Variant(alts), true) && WellFormed(g) && Decode(Variant(alts), g).Ok?
    ensures HasType(Variant(alts), Decode(Variant(alts), g).value)
    decreases alts
  {
    var v := Decode(Variant(alts), g).value;
    VariantParts(alts, g);
    if v == Default(Variant(alts)) {
      DefaultHasType(Variant(alts));
    } else {
      var c := Children(g)[0];
      ChildrenWellFormed(g);
      AttemptCases(alts, c, v.index);
      if !alts[v.index].Tuple? { ChosenIsTyped(alts[v.index], c); }
      ReadsFit(alts[v.index], !alts[v.index].Tuple?, c);
    }
  }

  /** Only a tuple alternative is chosen for a child that is not of its own type. */
  lemma ChosenIsTyped(t: CType, c: GVariant)
    requires Attempt(t, c).Assigned? && Attempt(t, c).o.Ok? && !t.Tuple?
    ensures TypeOf(c) == TypeOnWire(t)
  {
  }

  // ---------------------------------------------------------------- necessity

  ghost predicate Fine(t: CType, v: CValue) {
    HasType(t, v) && Encodable(t, v)
  }

  /** Something that is read at type `t` and cannot be written again. */
  lemma {:induction false} Unwritable(t: CType, typed: bool) returns (g: GVariant)
    requires Supported(t) && Faithful(t) && !(Closed(t, typed) && NoBoolVectors(t))
    ensures Received(t, typed, g) && !Fine(t, Decode(t, g).value)
    ensures t.Tuple? ==> g.GTuple?
    decreases t, 1
  {
    match t
    case Scalar(_) => g := GLeaf(Str, TextA(""));
    case Tuple(pair, ts) => g := UnwritableTuple(pair, ts, typed);
    case Vector(e) => g := UnwritableVector(e);
    case Map(_, _, _) => g := UnwritableMap(t);
    case Variant(alts) => g := UnwritableVariant(alts);
  }

  lemma {:induction false} UnwritableTuple(pair: bool, ts: seq<CType>, typed: bool) returns (g: GVariant)
    requires var t := Tuple(pair, ts); Supported(t) && Faithful(t) && !(Closed(t, typed) && NoBoolVectors(t))
    ensures g.GTuple? && Received(Tuple(pair, ts), typed, g) && !Fine(Tuple(pair, ts), Decode(Tuple(pair, ts), g).value)
    decreases ts
  {
    var i :| 0 <= i < |ts| && !(Closed(ts[i], typed) && NoBoolVectors(ts[i]));
    var c := Unwritable(ts[i], typed);
    var gs := Samples(ts);
    g := GTuple(gs[i := c]);
    forall k | 0 <= k < |ts| ensures Received(ts[k], typed, g.children[k]) {
      assert Received(ts[k], true, gs[k]);
    }
    TupleReceived(pair, ts, typed, g);
    UnfineElement(pair, ts, g, i);
  }

  lemma Samples(ts: seq<CType>) returns (gs: seq<GVariant>)
    requires forall k | 0 <= k < |ts| :: Supported(ts[k]) && Faithful(ts[k])
    ensures |gs| == |ts| && forall k | 0 <= k < |ts| :: Received(ts[k], true, gs[k])
  {
    var vs;
    vs, gs := SampleAll(ts);
    forall k | 0 <= k < |ts| ensures Received(ts[k], true, gs[k]) {
      EncodingTyped(ts[k], vs[k], gs[k]);
      RoundTrip(ts[k], vs[k], gs[k]);
    }
  }

  lemma TupleReceived(pair: bool, ts: seq<CType>, typed: bool, g: GVariant)
    requires g.GTuple? && |g.children| == |ts| && forall k | 0 <= k < |ts| :: Received(ts[k], typed, g.children[k])
    ensures Received(Tuple(pair, ts), typed, g)
  {
    TupleReads(pair, ts, g);
  }

  lemma UnfineElement(pair: bool, ts: seq<CType>, g: GVariant, k: nat)
    requires k < |ts| <= |Children(g)| && Decode(Tuple(pair, ts), g).Ok?
    requires Decode(ts[k], Children(g)[k]).Ok? && !Fine(ts[k], Decode(ts[k], Children(g)[k]).value)
    ensures !Fine(Tuple(pair, ts), Decode(Tuple(pair, ts), g).value)
  {
    var us := TupleParts(pair, ts, g);
    assert us[k] == Decode(ts[k], Children(g)[k]).value;
  }

  lemma {:induction false} UnwritableVector(e: CType) returns (g: GVariant)
    requires Supported(e) && Faithful(e) && !(Closed(e, true) && NoBoolVectors(Vector(e)))
    ensures Received(Vector(e), true, g) && !Fine(Vector(e), Decode(Vector(e), g).value)
    decreases e, 2
  {
    if e == Scalar(Bool) {
      g := OneElement(e, GLeaf(Bool, BoolA(false)));
    } else {
      var c := Unwritable(e, true);
      g := OneElement(e, c);
    }
  }

  lemma OneElement(e: CType, c: GVariant) returns (g: GVariant)
    requires Received(e, true, c) && (e != Scalar(Bool) ==> !Fine(e, Decode(e, c).value))
    ensures Received(Vector(e), true, g) && !Fine(Vector(e), Decode(Vector(e), g).value)
  {
    g := GArray(TypeOnWire(e), [c]);
    VectorReads(e, g);
    var vs := VectorParts(e, g);
    assert vs[0] == Decode(e, c).value;
  }

  lemma {:induction false} UnwritableMap(t: CType) returns (g: GVariant)
    requires t.Map? && Supported(t) && Faithful(t) && !(Closed(t, true) && NoBoolVectors(t))
    ensures Received(t, true, g) && !Fine(t, Decode(t, g).value)
    decreases t, 0
  {
    var c := Unwritable(t.mapped, true);
    g := OneEntry(t, c);
  }

  lemma OneEntry(t: CType, c: GVariant) returns (g: GVariant)
    requires t.Map? && Supported(t) && Received(t.mapped, true, c) && !Fine(t.mapped, Decode(t.mapped, c).value)
    ensures Received(t, true, g) && !Fine(t, Decode(t, g).value)
  {
    var e := GEntry(Leaf(t.key, SampleAtom(t.key)), c);
    g := GArray(WEntry(WBasic(OnWire(t.key)), TypeOnWire(t.mapped)), [e]);
    OneEntryReceived(t, c, e, g);
    OneEntryUnfine(t, c, e, g);
  }

  lemma OneEntryReceived(t: CType, c: GVariant, e: GVariant, g: GVariant)
    requires t.Map? && Supported(t) && Received(t.mapped, true, c)
    requires e == GEntry(Leaf(t.key, SampleAtom(t.key)), c)
    requires g == GArray(WEntry(WBasic(OnWire(t.key)), TypeOnWire(t.mapped)), [e])
    ensures Received(t, true, g)
  {
    LeafTyped(t.key, SampleAtom(t.key));
    EntryReads(t.key, t.mapped, t.key, SampleAtom(t.key), e);
    MapReads(t.hashed, t.key, t.mapped, g);
  }

  lemma OneEntryUnfine(t: CType, c: GVariant, e: GVariant, g: GVariant)
    requires t.Map? && Supported(t) && Decode(t, g).Ok? && Decode(t.mapped, c).Ok?
    requires e == GEntry(Leaf(t.key, SampleAtom(t.key)), c) && Children(g) == [e]
    requires !Fine(t.mapped, Decode(t.mapped, c).value)
    ensures !Fine(t, Decode(t, g).value)
  {
    EntryReads(t.key, t.mapped, t.key, SampleAtom(t.key), e);
    var ps := MapParts(t.hashed, t.key, t.mapped, g);
    FirstBindingWins(ps, 0);
    assert ps[0] == (SampleAtom(t.key), Decode(t.mapped, c).value);
  }

  lemma {:induction false} UnwritableVariant(alts: seq<CType>) returns (g: GVariant)
    requires var t := Variant(alts); Supported(t) && Faithful(t) && !(Closed(t, true) && NoBoolVectors(t))
    ensures Received(Variant(alts), true, g) && !Fine(Variant(alts), Decode(Variant(alts), g).value)
    decreases alts
  {
    if !DefaultFits(alts[0]) {
      g := GBoxed(GLeaf(UnixFd, IntA(0)));
      DefaultStays(alts, g.child);
    } else {
      var j :| 0 <= j < |alts| && !(Closed(alts[j], !alts[j].Tuple?) && NoBoolVectors(alts[j]));
      var c := Unwritable(alts[j], !alts[j].Tuple?);
      g := GBoxed(c);
      Chosen(alts, j, c);
    }
  }

  /** No alternative has the pattern of a descriptor. */
  lemma DefaultStays(alts: seq<CType>, c: GVariant)
    requires Supported(Variant(alts)) && Faithful(Variant(alts)) && !DefaultFits(alts[0]) && c == GLeaf(UnixFd, IntA(0))
    ensures Decode(Variant(alts), GBoxed(c)) == Ok(Default(Variant(alts)))
    ensures !HasType(Variant(alts), Default(Variant(alts)))
  {
    NothingMatches(alts, c);
    DefaultHasType(Variant(alts));
  }

  /** A child that matches no alternative leaves the default. */
  lemma NothingMatches(alts: seq<CType>, c: GVariant)
    requires forall j | 0 <= j < |alts| :: PatternOf(alts[j]).Some? && !Selects(alts, j, TypeOf(c))
    ensures Decode(Variant(alts), GBoxed(c)) == Ok(Default(Variant(alts)))
  {
    forall j | 0 <= j < |alts| ensures Attempt(alts[j], c) == Skipped {
      AttemptCases(alts, c, j);
    }
    AttemptsAt(alts, c);
    DecodesByExtract(alts, c);
    ExtractIsLastMatch(Attempts(alts, c), 0, Default(Variant(alts)));
  }

  /** What an alternative of a faithful variant can read, the variant reads as that alternative. */
  lemma Chosen(alts: seq<CType>, j: nat, c: GVariant)
    requires Faithful(Variant(alts)) && j < |alts| && Decode(alts[j], c).Ok?
    requires if alts[j].Tuple? then TypeOf(c).WTuple? else TypeOf(c) == TypeOnWire(alts[j])
    ensures Decode(Variant(alts), GBoxed(c)) == Ok(VariantV(j, Decode(alts[j], c).value))
  {
    assert Selects(alts, j, TypeOf(c)) by { OwnPattern(alts[j]); }
    forall i | 0 <= i < |alts| && i != j ensures Attempt(alts[i], c) == Skipped {
      assert !Selects(alts, i, TypeOf(c));
      AttemptCases(alts, c, i);
    }
    AttemptsAt(alts, c);
    DecodesByExtract(alts, c);
    ExtractKeeps(Attempts(alts, c), j, Decode(alts[j], c).value, Default(Variant(alts)));
  }

  // ---------------------------------------------------------------- main results

  ghost predicate Rewritten(t: CType, typed: bool, g: GVariant) {
    Received(t, typed, g) ==> CanWrite(t, Decode(t, g).value)
  }

  lemma ClosedRewrites(t: CType, typed: bool, g: GVariant)
    requires Supported(t) && Closed(t, typed) && NoBoolVectors(t)
    ensures Rewritten(t, typed, g)
  {
    if Received(t, typed, g) {
      ReadsFit(t, typed, g);
      NoBoolVectorsEncodable(t, Decode(t, g).value);
      CanWriteIff(t, Decode(t, g).value);
    }
  }

  /** Everything a type that round-trips reads off the wire can be written again if and only if the
      type is closed and has no std::vector<bool> in it. */
  lemma RewritingIsExact(t: CType, typed: bool)
    requires Supported(t) && Faithful(t)
    ensures Closed(t, typed) && NoBoolVectors(t) <==> forall g :: Rewritten(t, typed, g)
  {
    if Closed(t, typed) && NoBoolVectors(t) {
      forall g ensures Rewritten(t, typed, g) {
        ClosedRewrites(t, typed, g);
      }
    } else {
      var g := Unwritable(t, typed);
      CanWriteIff(t, Decode(t, g).value);
      assert !Rewritten(t, typed, g);
    }
  }

  /** Decode, encode, decode equals decode on any well-formed GVariant, duplicate keys included: every
      way to write the value read is read as that value. It can be written exactly when it is one of
      the type, as everything read at a closed type is, and no std::vector<bool> in it has elements. */
  lemma DecodeEncodeDecode(t: CType, typed: bool, g: GVariant)
    requires Supported(t) && Faithful(t) && Received(t, typed, g)
    ensures var v := Decode(t, g).value;
      && (forall g' | Encodes(t, v, g') :: Decode(t, g') == Decode(t, g))
      && (CanWrite(t, v) <==> HasType(t, v) && Encodable(t, v))
      && (Closed(t, typed) ==> HasType(t, v))
  {
    var v := Decode(t, g).value;
    if Closed(t, typed) { ReadsFit(t, typed, g); }
    CanWriteIff(t, v);
    forall g' | Encodes(t, v, g') ensures Decode(t, g') == Ok(v) {
      RoundTrip(t, v, g');
    }
  }

  /** The default of a variant need not be a value: a std::variant<object_path_t> that receives an
      integer holds the empty path, which no GVariant encodes. */
  lemma DefaultPathIsStuck()
    ensures var t, g := Variant([Scalar(ObjectPath)]), GBoxed(GLeaf(Int32, IntA(0)));
      && Supported(t) && Faithful(t) && Received(t, true, g)
      && Decode(t, g) == Ok(VariantV(0, Atomic(TextA("")))) && !CanWrite(t, Decode(t, g).value)
  {
    var t, c := Variant([Scalar(ObjectPath)]), GLeaf(Int32, IntA(0));
    NothingMatches(t.alts, c);
    CanWriteIff(t, Default(t));
  }

  // ---------------------------------------------------------------- what stays when nothing matches

  /** False, zero, empty, or the first alternative holding such a value. */
  predicate IsZero(v: CValue)
    decreases v
  {
    match v
    case Atomic(BoolA(b)) => !b
    case Atomic(IntA(n)) => n == 0
    case Atomic(FloatA(f)) => f == 0
    case Atomic(DoubleA(d)) => d == Widened(0)
    case Atomic(TextA(s)) => s == ""
    case TupleV(vs) => forall k | 0 <= k < |vs| :: IsZero(vs[k])
    case VectorV(vs) => vs == []
    case MapV(m) => m == map[]
    case VariantV(i, held) => i == 0 && IsZero(held)
  }

  lemma {:induction false} DefaultIsZero(t: CType)
    requires Supported(t)
    ensures IsZero(Default(t))
    decreases t
  {
    match t
    case Scalar(_) =>
    case Tuple(_, ts) =>
      forall k | 0 <= k < |ts| ensures IsZero(Default(t).elems[k]) { DefaultIsZero(ts[k]); }
    case Vector(_) =>
    case Map(_, _, _) =>
    case Variant(alts) => DefaultIsZero(alts[0]);
  }

  /** A variant that receives what no alternative overtakes holds its first alternative, and in it the
      zero value of that type. */
  lemma UnmatchedKeepsZero(alts: seq<CType>, t: CType, x: CValue, c: GVariant)
    requires Supported(Variant(alts)) && Encodes(t, x, c)
    requires forall k | 0 <= k < |alts| :: Recognized(alts[k]) && !Overtakes(alts[k], t)
    ensures Decode(Variant(alts), GBoxed(c)).Ok?
    ensures var v := Decode(Variant(alts), GBoxed(c)).value;
      v.VariantV? && v.index == 0 && IsZero(v.held) && (DefaultFits(alts[0]) ==> HasType(alts[0], v.held))
  {
    EncodingTyped(t, x, c);
    forall k | 0 <= k < |alts| ensures PatternOf(alts[k]).Some? && !Selects(alts, k, TypeOf(c)) {
      OvertakesIsSelects(alts, k, t);
    }
    NothingMatches(alts, c);
    DefaultIsZero(alts[0]);
    DefaultHasType(alts[0]);
  }
}
