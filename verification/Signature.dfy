/**
 Type strings (include/type_mapping.h) and a recursive-descent parser for the grammar in the
 "Type System" section of the D-Bus Specification, extended with GVariant's unit type "()".
 */
module Signature {
  import opened Types

  /** `to_dbus_type_string` on a basic type. */
  function Code(b: Basic): char {
    match b
    case Int16 => 'n'
    case UInt16 => 'q'
    case Int32 => 'i'
    case UInt32 => 'u'
    case Int64 => 'x'
    case UInt64 => 't'
    case Double => 'd'
    case Float => 'd'
    case Byte => 'y'
    case UnixFd => 'h'
    case Str => 's'
    case CStr => 's'
    case ObjectPath => 'o'
    case Bool => 'b'
  }

  /** `to_dbus_type_string`. */
  function TypeString(t: CType): string
    decreases t
  {
    match t
    case Scalar(b) => [Code(b)]
    case Tuple(_, ts) => "(" + TypeStrings(ts) + ")"
    case Vector(e) => "a" + TypeString(e)
    case Map(_, key, mapped) => "a{" + [Code(key)] + TypeString(mapped) + "}"
    case Variant(_) => "v"
  }

  function TypeStrings(ts: seq<CType>): string
    decreases ts
  {
    if ts == [] then "" else TypeString(ts[0]) + TypeStrings(ts[1..])
  }

  const BASICS := [Int16, UInt16, Int32, UInt32, Int64, UInt64, Double, Byte, UnixFd, Str, ObjectPath, Bool]
  const CODES := "nqiuxtdyhsob"

  /** The letters are those of the specification's table of types. */
  lemma SpecificationCodes(k: nat)
    requires k < |BASICS|
    ensures |CODES| == |BASICS| && TypeString(Scalar(BASICS[k])) == [CODES[k]]
  {
  }

  // ---------------------------------------------------------------- the specification's side

  /** The types of the D-Bus type system: entries occur only as the element of an array. */
  predicate DBusType(w: WireType)
    decreases w
  {
    match w
    case WBasic(b) => b == OnWire(b)
    case WTuple(ws) => forall k | 0 <= k < |ws| :: DBusType(ws[k])
    case WArray(WEntry(key, mapped)) => key.WBasic? && DBusType(key) && DBusType(mapped)
    case WArray(e) => DBusType(e)
    case WEntry(_, _) => false
    case WVariant => true
  }

  function Print(w: WireType): string
    decreases w
  {
    match w
    case WBasic(b) => [Code(b)]
    case WTuple(ws) => "(" + PrintAll(ws) + ")"
    case WArray(e) => "a" + Print(e)
    case WEntry(key, mapped) => "{" + Print(key) + Print(mapped) + "}"
    case WVariant => "v"
  }

  function PrintAll(ws: seq<WireType>): string
    decreases ws
  {
    if ws == [] then "" else Print(ws[0]) + PrintAll(ws[1..])
  }

  function FromCode(c: char): Option<Basic> {
    match c
    case 'n' => Some(Int16)
    case 'q' => Some(UInt16)
    case 'i' => Some(Int32)
    case 'u' => Some(UInt32)
    case 'x' => Some(Int64)
    case 't' => Some(UInt64)
    case 'd' => Some(Double)
    case 'y' => Some(Byte)
    case 'h' => Some(UnixFd)
    case 's' => Some(Str)
    case 'o' => Some(ObjectPath)
    case 'b' => Some(Bool)
    case _ => None
  }

  /** Reads one complete type off the front of `s`. */
  function Parse(s: string): (r: Option<(WireType, string)>)
    ensures r.Some? ==> |r.value.1| < |s|
    decreases |s|, 0
  {
    if s == [] then None
    else if s[0] == 'v' then Some((WVariant, s[1..]))
    else if s[0] == '(' then
      match ParseUntilClose(s[1..])
      case None => None
      case Some((ws, rest)) => Some((WTuple(ws), rest))
    else if s[0] == 'a' then
      if |s| > 1 && s[1] == '{' then ParseEntry(s[2..])
      else
        match Parse(s[1..])
        case None => None
        case Some((w, rest)) => Some((WArray(w), rest))
    else
      match FromCode(s[0])
      case None => None
      case Some(b) => Some((WBasic(b), s[1..]))
  }

  /** Reads the rest of "a{": a basic key, one complete type and the closing brace. */
  function ParseEntry(s: string): (r: Option<(WireType, string)>)
    ensures r.Some? ==> |r.value.1| < |s|
    decreases |s|, 1
  {
    if s == [] || FromCode(s[0]).None? then None
    else
      match Parse(s[1..])
      case None => None
      case Some((w, rest)) =>
        if rest == [] || rest[0] != '}' then None
        else Some((WArray(WEntry(WBasic(FromCode(s[0]).value), w)), rest[1..]))
  }

  function ParseUntilClose(s: string): (r: Option<(seq<WireType>, string)>)
    ensures r.Some? ==> |r.value.1| < |s|
    decreases |s|, 1
  {
    if s == [] then None
    else if s[0] == ')' then Some(([], s[1..]))
    else
      match Parse(s)
      case None => None
      case Some((w, rest)) =>
        match ParseUntilClose(rest)
        case None => None
        case Some((ws, rest')) => Some(([w] + ws, rest'))
  }

  /** Reads a whole signature, a concatenation of complete types. */
  function ParseAll(s: string): Option<seq<WireType>>
    decreases |s|
  {
    if s == [] then Some([])
    else
      match Parse(s)
      case None => None
      case Some((w, rest)) =>
        match ParseAll(rest)
        case None => None
        case Some(ws) => Some([w] + ws)
  }

  // ---------------------------------------------------------------- proofs

  lemma {:induction false} PrintStart(w: WireType)
    requires DBusType(w)
    ensures Print(w) != "" && Print(w)[0] != ')' && Print(w)[0] != '{'
  {
  }

  lemma EntryText(c: char, p: string, rest: string)
    ensures "a" + ("{" + [c] + p + "}") + rest == "a" + ("{" + ([c] + (p + ("}" + rest))))
    ensures "{" + [c] + p + "}" + rest == "{" + ([c] + (p + ("}" + rest)))
  {
  }

  lemma ParseEntryText(c: char, b: Basic, p: string, w: WireType, rest: string)
    requires FromCode(c) == Some(b)
    requires Parse(p + ("}" + rest)) == Some((w, "}" + rest))
    ensures Parse("a" + ("{" + ([c] + (p + ("}" + rest))))) == Some((WArray(WEntry(WBasic(b), w)), rest))
  {
    var tail := p + ("}" + rest);
    var s := "a" + ("{" + ([c] + tail));
    assert s[2..] == [c] + tail;
    assert ([c] + tail)[1..] == tail;
    assert ("}" + rest)[1..] == rest;
  }

  lemma CodeRoundTrip(c: char)
    requires FromCode(c).Some?
    ensures OnWire(FromCode(c).value) == FromCode(c).value && Code(FromCode(c).value) == c
  {
  }

  /** Completeness: the parser recovers every D-Bus type, whatever follows it. */
  lemma {:induction false} ParsePrint(w: WireType, rest: string)
    requires DBusType(w)
    ensures Parse(Print(w) + rest) == Some((w, rest))
    decreases w, 1
  {
    match w
    case WBasic(b) => assert ([Code(b)] + rest)[1..] == rest;
    case WVariant => assert ("v" + rest)[1..] == rest;
    case WTuple(ws) =>
      ParsePrintUntilClose(ws, rest);
      ParseTupleText(PrintAll(ws), ws, rest);
    case WArray(e) =>
      if e.WEntry? {
        ParsePrintEntry(e, rest);
      } else {
        PrintStart(e);
        ParsePrint(e, rest);
        assert ("a" + Print(e) + rest)[1..] == Print(e) + rest;
        ParseArrayHead("a" + Print(e) + rest);
      }
  }

  lemma ParseTupleText(p: string, ws: seq<WireType>, rest: string)
    requires ParseUntilClose(p + ")" + rest) == Some((ws, rest))
    ensures Parse("(" + p + ")" + rest) == Some((WTuple(ws), rest))
  {
    assert ("(" + p + ")" + rest)[1..] == p + ")" + rest;
  }

  lemma ParseArrayHead(s: string)
    requires |s| > 1 && s[0] == 'a' && s[1] != '{' && Parse(s[1..]).Some?
    ensures Parse(s) == Some((WArray(Parse(s[1..]).value.0), Parse(s[1..]).value.1))
  {
  }

  lemma {:induction false} ParsePrintEntry(e: WireType, rest: string)
    requires e.WEntry? && DBusType(WArray(e))
    ensures Parse("a" + Print(e) + rest) == Some((WArray(e), rest))
    decreases e, 0
  {
    var b := e.key.b;
    ParsePrint(e.mapped, "}" + rest);
    ParseEntryText(Code(b), b, Print(e.mapped), e.mapped, rest);
    EntryText(Code(b), Print(e.mapped), rest);
    assert Print(e) == "{" + [Code(b)] + Print(e.mapped) + "}";
  }

  lemma {:induction false} ParsePrintUntilClose(ws: seq<WireType>, rest: string)
    requires forall k | 0 <= k < |ws| :: DBusType(ws[k])
    ensures ParseUntilClose(PrintAll(ws) + ")" + rest) == Some((ws, rest))
    decreases ws, 0
  {
    var s := PrintAll(ws) + ")" + rest;
    if ws == [] {
      assert s[1..] == rest;
    } else {
      var after := PrintAll(ws[1..]) + ")" + rest;
      PrintStart(ws[0]);
      ParsePrint(ws[0], after);
      assert s == Print(ws[0]) + after;
      ParsePrintUntilClose(ws[1..], rest);
      assert ws == [ws[0]] + ws[1..];
    }
  }

  lemma {:induction false} ParseAllPrintAll(ws: seq<WireType>)
    requires forall k | 0 <= k < |ws| :: DBusType(ws[k])
    ensures ParseAll(PrintAll(ws)) == Some(ws)
  {
    if ws != [] {
      PrintStart(ws[0]);
      ParsePrint(ws[0], PrintAll(ws[1..]));
      ParseAllPrintAll(ws[1..]);
      assert ws == [ws[0]] + ws[1..];
    }
  }

  /** Soundness: the parser accepts nothing but D-Bus types, printed as they are. */
  lemma {:induction false} ParseSound(s: string)
    requires Parse(s).Some?
    ensures DBusType(Parse(s).value.0) && s == Print(Parse(s).value.0) + Parse(s).value.1
    decreases |s|, 0
  {
    var (w, rest) := Parse(s).value;
    if s[0] == '(' {
      ParseUntilCloseSound(s[1..]);
    } else if s[0] == 'a' {
      if |s| > 1 && s[1] == '{' {
        ParseEntrySound(s[2..]);
        assert s == "a" + ("{" + s[2..]);
      } else {
        ParseSound(s[1..]);
        assert s == "a" + s[1..];
      }
    }
  }

  lemma {:induction false} ParseEntrySound(s: string)
    requires ParseEntry(s).Some?
    ensures var (w, rest) := ParseEntry(s).value;
      w.WArray? && DBusType(w) && "{" + s == Print(w.elem) + rest
    decreases |s|, 1
  {
    ParseSound(s[1..]);
    CodeRoundTrip(s[0]);
    var (w, rest) := ParseEntry(s).value;
    var (inner, after) := Parse(s[1..]).value;
    assert after == "}" + rest;
    EntryText(s[0], Print(inner), rest);
    assert s == [s[0]] + s[1..];
  }

  lemma {:induction false} ParseUntilCloseSound(s: string)
    requires ParseUntilClose(s).Some?
    ensures forall k | 0 <= k < |ParseUntilClose(s).value.0| :: DBusType(ParseUntilClose(s).value.0[k])
    ensures s == PrintAll(ParseUntilClose(s).value.0) + ")" + ParseUntilClose(s).value.1
    decreases |s|, 1
  {
    if s[0] == ')' {
      assert s == ")" + s[1..];
    } else {
      ParseSound(s);
      var (w, rest) := Parse(s).value;
      ParseUntilCloseSound(rest);
      var (ws, rest') := ParseUntilClose(rest).value;
      assert ([w] + ws)[1..] == ws;
      assert s == Print(w) + (PrintAll(ws) + ")" + rest');
    }
  }

  lemma {:induction false} TypeStringPrints(t: CType)
    ensures TypeString(t) == Print(TypeOnWire(t)) && DBusType(TypeOnWire(t)) && !TypeOnWire(t).WEntry?
    decreases t, 1
  {
    match t
    case Scalar(_) =>
    case Variant(_) =>
    case Tuple(_, ts) =>
      TypeStringsPrint(ts);
      assert TypesOnWire(ts) == TypeOnWire(t).elems;
    case Vector(e) => TypeStringPrints(e);
    case Map(_, key, mapped) =>
      TypeStringPrints(mapped);
      CodeOnWire(key);
      PrintDictionary(OnWire(key), TypeOnWire(mapped));
  }

  lemma CodeOnWire(b: Basic)
    ensures Code(OnWire(b)) == Code(b) && OnWire(OnWire(b)) == OnWire(b)
  {
  }

  lemma PrintDictionary(key: Basic, mapped: WireType)
    requires key == OnWire(key) && DBusType(mapped)
    ensures Print(WArray(WEntry(WBasic(key), mapped))) == "a{" + [Code(key)] + Print(mapped) + "}"
    ensures DBusType(WArray(WEntry(WBasic(key), mapped)))
  {
    var e := WEntry(WBasic(key), mapped);
    assert Print(e) == "{" + [Code(key)] + Print(mapped) + "}";
    assert Print(WArray(e)) == "a" + Print(e);
  }

  lemma {:induction false} TypeStringsPrint(ts: seq<CType>)
    ensures TypeStrings(ts) == PrintAll(TypesOnWire(ts))
    ensures forall k | 0 <= k < |ts| :: DBusType(TypesOnWire(ts)[k])
    decreases ts, 0
  {
    if ts != [] {
      TypeStringPrints(ts[0]);
      TypeStringsPrint(ts[1..]);
      assert TypesOnWire(ts)[1..] == TypesOnWire(ts[1..]);
      forall k | 0 <= k < |ts| ensures DBusType(TypesOnWire(ts)[k]) {
        if k > 0 { assert TypesOnWire(ts)[k] == TypesOnWire(ts[1..])[k - 1]; }
      }
    }
  }

  /** A type string followed by anything parses back to the type up to the code's identifications. */
  lemma TypeStringParses(t: CType, rest: string)
    ensures Parse(TypeString(t) + rest) == Some((TypeOnWire(t), rest))
  {
    TypeStringPrints(t);
    ParsePrint(TypeOnWire(t), rest);
  }

  /** No type string is a proper prefix of another, and equal strings mean equal wire types. */
  lemma TypeStringsPrefixFree(t: CType, u: CType)
    ensures TypeString(t) <= TypeString(u) <==> TypeOnWire(t) == TypeOnWire(u)
    ensures TypeString(t) == TypeString(u) <==> TypeOnWire(t) == TypeOnWire(u)
  {
    TypeStringPrints(t);
    TypeStringPrints(u);
    if TypeString(t) <= TypeString(u) {
      var rest := TypeString(u)[|TypeString(t)|..];
      assert TypeString(u) == TypeString(t) + rest;
      assert TypeString(u) == TypeString(u) + "";
      TypeStringParses(t, rest);
      TypeStringParses(u, "");
    }
  }

  /** A concatenation of type strings splits in one way only. */
  lemma SignatureDecodes(ts: seq<CType>, us: seq<CType>)
    ensures ParseAll(TypeStrings(ts)) == Some(TypesOnWire(ts))
    ensures TypeStrings(ts) == TypeStrings(us) <==> TypesOnWire(ts) == TypesOnWire(us)
  {
    TypeStringsPrint(ts);
    TypeStringsPrint(us);
    ParseAllPrintAll(TypesOnWire(ts));
    ParseAllPrintAll(TypesOnWire(us));
  }

  ghost predicate BasicIdentified(b: Basic, c: Basic) {
    b == c || {b, c} == {Float, Double} || {b, c} == {CStr, Str}
  }

  /** The identifications the library makes: float with double, const char* with std::string,
      std::pair with std::tuple, std::unordered_map with std::map, and all variants. */
  ghost predicate Identified(t: CType, u: CType)
    decreases t
  {
    match (t, u)
    case (Scalar(b), Scalar(c)) => BasicIdentified(b, c)
    case (Tuple(_, ts), Tuple(_, us)) => |ts| == |us| && forall k | 0 <= k < |ts| :: Identified(ts[k], us[k])
    case (Vector(e), Vector(f)) => Identified(e, f)
    case (Map(_, key, m), Map(_, key', m')) => BasicIdentified(key, key') && Identified(m, m')
    case (Variant(_), Variant(_)) => true
    case _ => false
  }

  lemma BasicsIdentified(b: Basic, c: Basic)
    ensures BasicIdentified(b, c) <==> OnWire(b) == OnWire(c)
  {
    assert b == Float ==> b in {b, c};
    assert c == Float ==> c in {b, c};
    assert b == CStr ==> b in {b, c};
    assert c == CStr ==> c in {b, c};
    if OnWire(b) == OnWire(c) && b != c {
      assert {b, c} == {Float, Double} || {b, c} == {CStr, Str};
    }
  }

  lemma {:induction false} IdentifiedIffSameWireType(t: CType, u: CType)
    ensures Identified(t, u) <==> TypeOnWire(t) == TypeOnWire(u)
    decreases t
  {
    match (t, u)
    case (Scalar(b), Scalar(c)) => BasicsIdentified(b, c);
    case (Tuple(_, ts), Tuple(_, us)) =>
      assert TypeOnWire(t).elems == TypesOnWire(ts) && TypeOnWire(u).elems == TypesOnWire(us);
      forall k | 0 <= k < |ts| && |ts| == |us|
        ensures Identified(ts[k], us[k]) <==> TypesOnWire(ts)[k] == TypesOnWire(us)[k]
      {
        IdentifiedIffSameWireType(ts[k], us[k]);
      }
    case (Vector(e), Vector(f)) => IdentifiedIffSameWireType(e, f);
    case (Map(_, key, m), Map(_, key', m')) =>
      BasicsIdentified(key, key');
      IdentifiedIffSameWireType(m, m');
    case _ =>
  }

  /** Two C++ types share a type string exactly when the library identifies them. */
  lemma TypeStringIdentifies(t: CType, u: CType)
    ensures TypeString(t) == TypeString(u) <==> Identified(t, u)
  {
    TypeStringsPrefixFree(t, u);
    IdentifiedIffSameWireType(t, u);
  }
}
