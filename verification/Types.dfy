/**
 The universe of C++ types the library maps onto D-Bus, the values of those types, and the
 types and values that GVariant puts on the wire.
 */
module Types {

  datatype Option<+T> = None | Some(value: T)

  /** Fault stands for a failed GLib type check and for the library's own std::runtime_error. */
  datatype Outcome<+T> = Ok(value: T) | Fault

  // ---------------------------------------------------------------- C++ types

  datatype Basic =
    | Int16 | UInt16 | Int32 | UInt32 | Int64 | UInt64
    | Double | Float | Byte | UnixFd | Str | CStr | ObjectPath | Bool

  /** `pair` tells std::pair from std::tuple, `hashed` std::unordered_map from std::map. */
  datatype CType =
    | Scalar(b: Basic)
    | Tuple(pair: bool, elems: seq<CType>)
    | Vector(elem: CType)
    | Map(hashed: bool, key: Basic, mapped: CType)
    | Variant(alts: seq<CType>)

  /** What the C++ compiler asks of a type before any of the templates can be instantiated. */
  ghost predicate Supported(t: CType)
    decreases t
  {
    match t
    case Scalar(_) => true
    case Tuple(pair, ts) => (pair ==> |ts| == 2) && forall k | 0 <= k < |ts| :: Supported(ts[k])
    case Vector(e) => Supported(e)
    case Map(_, key, mapped) => key != CStr && Supported(mapped)
    case Variant(alts) =>
      && |alts| > 0
      && (forall i, j | 0 <= i < j < |alts| :: alts[i] != alts[j])
      && forall k | 0 <= k < |alts| :: Supported(alts[k])
  }

  // ---------------------------------------------------------------- C++ values

  /** A single-precision number, known only by its bit pattern. */
  type Float32 = nat

  /** A double is the exact widening of a single, or else rounds to a nearest one. */
  datatype Float64 = Widened(single: Float32) | Wide(bits: nat, nearest: Float32)

  function Narrow(d: Float64): Float32 {
    match d
    case Widened(f) => f
    case Wide(_, f) => f
  }

  datatype Atom = BoolA(b: bool) | IntA(n: int) | FloatA(f: Float32) | DoubleA(d: Float64) | TextA(s: string)

  datatype CValue =
    | Atomic(a: Atom)
    | TupleV(elems: seq<CValue>)
    | VectorV(elems: seq<CValue>)
    | MapV(entries: map<Atom, CValue>)
    | VariantV(index: nat, held: CValue)

  predicate PathChar(c: char) {
    'a' <= c <= 'z' || 'A' <= c <= 'Z' || '0' <= c <= '9' || c == '_'
  }

  /** Valid object paths, "Marshaling (Wire Format)" section of the D-Bus Specification. */
  predicate IsObjectPath(s: string) {
    && |s| > 0 && s[0] == '/'
    && (|s| > 1 ==> s[|s| - 1] != '/')
    && (forall i | 0 <= i < |s| :: s[i] == '/' || PathChar(s[i]))
    && forall i | 0 < i < |s| :: !(s[i - 1] == '/' && s[i] == '/')
  }

  /** The values of a basic type; text is NUL-free, so `c_str()` loses nothing. */
  predicate AtomFits(b: Basic, a: Atom) {
    match b
    case Int16 => a.IntA? && -0x8000 <= a.n < 0x8000
    case UInt16 => a.IntA? && 0 <= a.n < 0x1_0000
    case Int32 => a.IntA? && -0x8000_0000 <= a.n < 0x8000_0000
    case UInt32 => a.IntA? && 0 <= a.n < 0x1_0000_0000
    case Int64 => a.IntA? && -0x8000_0000_0000_0000 <= a.n < 0x8000_0000_0000_0000
    case UInt64 => a.IntA? && 0 <= a.n < 0x1_0000_0000_0000_0000
    case Double => a.DoubleA?
    case Float => a.FloatA?
    case Byte => a.IntA? && 0 <= a.n < 0x100
    case UnixFd => a.IntA? && -0x8000_0000 <= a.n < 0x8000_0000
    case Str => a.TextA? && '\0' !in a.s
    case CStr => a.TextA? && '\0' !in a.s
    case ObjectPath => a.TextA? && IsObjectPath(a.s)
    case Bool => a.BoolA?
  }

  /** The integer types by their bytes: a byte has 256 values, an unsigned number is one of half its
      width followed by another, and a signed one is an unsigned one shifted by half its range. */
  lemma IntegerWidths(h: int, l: int, n: int)
    ensures AtomFits(Byte, IntA(n)) <==> 0 <= n <= 255
    ensures AtomFits(Byte, IntA(l)) ==> (AtomFits(UInt16, IntA(256 * h + l)) <==> AtomFits(Byte, IntA(h)))
    ensures AtomFits(UInt16, IntA(l)) ==> (AtomFits(UInt32, IntA(65536 * h + l)) <==> AtomFits(UInt16, IntA(h)))
    ensures AtomFits(UInt32, IntA(l)) ==> (AtomFits(UInt64, IntA(4294967296 * h + l)) <==> AtomFits(UInt32, IntA(h)))
    ensures AtomFits(Int16, IntA(n)) <==> AtomFits(UInt16, IntA(n + 32768))
    ensures AtomFits(Int32, IntA(n)) <==> AtomFits(UInt32, IntA(n + 2147483648))
    ensures AtomFits(Int64, IntA(n)) <==> AtomFits(UInt64, IntA(n + 9223372036854775808))
    ensures AtomFits(UnixFd, IntA(n)) <==> AtomFits(Int32, IntA(n))
  {
  }

  /** One or more elements, each a slash and one or more letters, digits or underscores. */
  ghost predicate PathElements(s: string)
    decreases |s|
  {
    exists k ::
      && 1 < k <= |s| && s[0] == '/' && (forall i | 1 <= i < k :: PathChar(s[i]))
      && (s[k..] == "" || PathElements(s[k..]))
  }

  /** The two ways to say what an object path is: by what may not occur, and by its grammar. */
  lemma ObjectPathGrammar(s: string)
    ensures IsObjectPath(s) <==> s == "/" || PathElements(s)
  {
    if IsObjectPath(s) && |s| > 1 { PathHasElements(s); }
    if PathElements(s) { ElementsArePath(s); }
    if IsObjectPath(s) && |s| == 1 { assert s == "/"; }
  }

  lemma {:induction false} PathHasElements(s: string)
    requires IsObjectPath(s) && |s| > 1
    ensures PathElements(s)
    decreases |s|
  {
    var k := FirstSlash(s, 1);
    if k < |s| {
      var rest := s[k..];
      assert forall i | 0 <= i < |rest| :: rest[i] == s[k + i];
      PathHasElements(rest);
    } else {
      assert s[k..] == "";
    }
  }

  /** The first slash from `from` on, or the end. */
  lemma {:induction false} FirstSlash(s: string, from: nat) returns (k: nat)
    requires from <= |s|
    ensures from <= k <= |s| && (forall i | from <= i < k :: s[i] != '/') && (k < |s| ==> s[k] == '/')
    decreases |s| - from
  {
    if from == |s| || s[from] == '/' {
      k := from;
    } else {
      k := FirstSlash(s, from + 1);
    }
  }

  lemma {:induction false} ElementsArePath(s: string)
    requires PathElements(s)
    ensures IsObjectPath(s) && |s| > 1
    decreases |s|
  {
    var k :|
      && 1 < k <= |s| && s[0] == '/' && (forall i | 1 <= i < k :: PathChar(s[i]))
      && (s[k..] == "" || PathElements(s[k..]));
    if k < |s| {
      var rest := s[k..];
      ElementsArePath(rest);
      assert forall i | k <= i < |s| :: s[i] == rest[i - k];
    }
  }

  predicate HasType(t: CType, v: CValue)
    decreases t
  {
    match t
    case Scalar(b) => v.Atomic? && AtomFits(b, v.a)
    case Tuple(_, ts) =>
      v.TupleV? && |v.elems| == |ts| && forall k | 0 <= k < |ts| :: HasType(ts[k], v.elems[k])
    case Vector(e) => v.VectorV? && forall k | 0 <= k < |v.elems| :: HasType(e, v.elems[k])
    case Map(_, key, mapped) =>
      v.MapV? && forall a | a in v.entries :: AtomFits(key, a) && HasType(mapped, v.entries[a])
    case Variant(alts) => v.VariantV? && v.index < |alts| && HasType(alts[v.index], v.held)
  }

  // ---------------------------------------------------------------- wire types and values

  /** GVariant types. A dictionary is an array of entries. */
  datatype WireType =
    | WBasic(b: Basic)
    | WTuple(elems: seq<WireType>)
    | WArray(elem: WireType)
    | WEntry(key: WireType, mapped: WireType)
    | WVariant

  datatype GVariant =
    | GLeaf(b: Basic, a: Atom)
    | GTuple(children: seq<GVariant>)
    | GArray(elem: WireType, children: seq<GVariant>)
    | GEntry(key: GVariant, mapped: GVariant)
    | GBoxed(child: GVariant)

  /** float travels as double and const char* as a string. */
  function OnWire(b: Basic): Basic {
    match b
    case Float => Double
    case CStr => Str
    case _ => b
  }

  function TypeOnWire(t: CType): WireType
    decreases t
  {
    match t
    case Scalar(b) => WBasic(OnWire(b))
    case Tuple(_, ts) => WTuple(seq(|ts|, k requires 0 <= k < |ts| => TypeOnWire(ts[k])))
    case Vector(e) => WArray(TypeOnWire(e))
    case Map(_, key, mapped) => WArray(WEntry(WBasic(OnWire(key)), TypeOnWire(mapped)))
    case Variant(_) => WVariant
  }

  function TypesOnWire(ts: seq<CType>): seq<WireType> {
    seq(|ts|, k requires 0 <= k < |ts| => TypeOnWire(ts[k]))
  }

  function TypeOf(g: GVariant): WireType
    decreases g
  {
    match g
    case GLeaf(b, _) => WBasic(b)
    case GTuple(cs) => WTuple(seq(|cs|, k requires 0 <= k < |cs| => TypeOf(cs[k])))
    case GArray(e, _) => WArray(e)
    case GEntry(k, m) => WEntry(TypeOf(k), TypeOf(m))
    case GBoxed(_) => WVariant
  }

  /** GLib's own invariant: leaves hold values of their type, arrays are homogeneous and dictionary
      keys are basic. */
  ghost predicate WellFormed(g: GVariant)
    decreases g
  {
    match g
    case GLeaf(b, a) => b == OnWire(b) && AtomFits(b, a)
    case GTuple(cs) => forall k | 0 <= k < |cs| :: WellFormed(cs[k])
    case GArray(e, cs) => forall k | 0 <= k < |cs| :: TypeOf(cs[k]) == e && WellFormed(cs[k])
    case GEntry(k, m) => k.GLeaf? && WellFormed(k) && WellFormed(m)
    case GBoxed(c) => WellFormed(c)
  }

  /** What g_variant_get_child_value can reach; leaves have no children. */
  function Children(g: GVariant): seq<GVariant> {
    match g
    case GLeaf(_, _) => []
    case GTuple(cs) => cs
    case GArray(_, cs) => cs
    case GEntry(k, m) => [k, m]
    case GBoxed(c) => [c]
  }
}
