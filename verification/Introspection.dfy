/**
 What the introspection XML of an object says about its members (include/object.inl:26-69,
 149-158, 176-219), as a sequence of elements without the markup.
 */
module Introspection {
  import opened Types
  import opened Signature
  import opened Descriptors

  datatype Direction = In | Out
  datatype ArgElement = ArgElement(name: string, typ: string, direction: Direction)
  datatype MethodElement = MethodElement(name: string, args: seq<ArgElement>)
  datatype SignalElement = SignalElement(name: string, args: seq<(string, string)>)
  datatype Access = Read | Write | ReadWrite
  datatype PropertyElement = PropertyElement(name: string, typ: string, access: Access)

  /** What a callable returns: nothing, one value, or a std::tuple of values. */
  datatype Returns = NoResult | Single(t: CType) | Several(ts: seq<CType>)

  function RetTypes(r: Returns): seq<CType> {
    match r
    case NoResult => []
    case Single(t) => [t]
    case Several(ts) => ts
  }

  /** The types of the parameters that travel, dbus_context erased. */
  function InTypes(ps: seq<Param>): seq<CType> {
    if ps == [] then []
    else InTypes(ps[..|ps| - 1]) + match ps[|ps| - 1] case ContextParam => [] case ArgParam(t) => [t]
  }

  // ---------------------------------------------------------------- generated names

  /** std::to_string. */
  function Decimal(n: nat): (s: string)
    ensures |s| >= if n < 10 then 1 else 2
  {
    if n < 10 then [Digit(n)] else Decimal(n / 10) + [Digit(n % 10)]
  }

  function Digit(d: nat): (c: char)
    requires d < 10
    ensures '0' <= c <= '9' && c as int == '0' as int + d
  {
    (d + '0' as int) as char
  }

  lemma {:induction false} DecimalInjective(m: nat, n: nat)
    requires Decimal(m) == Decimal(n)
    ensures m == n
  {
    var s := Decimal(m);
    assert s[|s| - 1] == Digit(m % 10) && s[|s| - 1] == Digit(n % 10);
    if m >= 10 && n >= 10 {
      assert s[..|s| - 1] == Decimal(m / 10) && s[..|s| - 1] == Decimal(n / 10);
      DecimalInjective(m / 10, n / 10);
    }
  }

  function ArgName(names: seq<string>, prefix: string, i: nat): string
    requires names == [] || i < |names|
  {
    if names == [] then prefix + Decimal(i) else names[i]
  }

  lemma GeneratedNamesDistinct(prefix: string, i: nat, j: nat)
    requires i != j
    ensures ArgName([], prefix, i) != ArgName([], prefix, j)
  {
    if prefix + Decimal(i) == prefix + Decimal(j) {
      assert (prefix + Decimal(i))[|prefix|..] == Decimal(i);
      assert (prefix + Decimal(j))[|prefix|..] == Decimal(j);
      DecimalInjective(i, j);
    }
  }

  /** The number a text of decimal digits stands for. */
  function Numeral(s: string): nat
    requires forall i | 0 <= i < |s| :: '0' <= s[i] <= '9'
  {
    if s == [] then 0 else 10 * Numeral(s[..|s| - 1]) + (s[|s| - 1] as int - '0' as int)
  }

  /** `s` is `n` in decimal digits, without a leading zero. */
  ghost predicate Writes(s: string, n: nat) {
    && s != [] && (forall i | 0 <= i < |s| :: '0' <= s[i] <= '9')
    && Numeral(s) == n && (s[0] == '0' ==> s == "0")
  }

  lemma NoLeadingZero(s: string, n: nat)
    requires Writes(s, n)
    ensures n > 0 ==> s[0] != '0'
  {
    assert "0"[..0] == [];
    assert Numeral("0") == 0;
  }

  lemma {:induction false} DecimalWrites(n: nat)
    ensures Writes(Decimal(n), n)
  {
    if n >= 10 {
      DecimalWrites(n / 10);
      var s := Decimal(n);
      assert s[..|s| - 1] == Decimal(n / 10);
      NoLeadingZero(Decimal(n / 10), n / 10);
    } else {
      assert Decimal(n)[..0] == [];
    }
  }

  /** What the k-th argument is called: as the program says, or else by the prefix and its number. */
  ghost predicate Named(name: string, names: seq<string>, prefix: string, k: nat) {
    if names != [] then k < |names| && name == names[k]
    else prefix <= name && Writes(name[|prefix|..], k)
  }

  lemma ArgNamed(names: seq<string>, prefix: string, k: nat)
    requires names == [] || k < |names|
    ensures Named(ArgName(names, prefix, k), names, prefix, k)
  {
    if names == [] {
      DecimalWrites(k);
      assert (prefix + Decimal(k))[|prefix|..] == Decimal(k);
    }
  }

  // ---------------------------------------------------------------- method elements

  predicate NamesFit(names: seq<string>, n: nat) {
    names == [] || |names| == n
  }

  function InArgs(ts: seq<CType>, names: seq<string>): seq<ArgElement>
    requires NamesFit(names, |ts|)
  {
    seq(|ts|, k requires 0 <= k < |ts| => ArgElement(ArgName(names, "in_arg", k), TypeString(ts[k]), In))
  }

  function OutArgs(ts: seq<CType>, names: seq<string>): seq<ArgElement>
    requires NamesFit(names, |ts|)
  {
    seq(|ts|, k requires 0 <= k < |ts| => ArgElement(ArgName(names, "out_arg", k), TypeString(ts[k]), Out))
  }

  /** The name lists `add_method` accepts; a callable returning void takes any `out` names. */
  predicate Acceptable(ps: seq<Param>, ret: Returns, inNames: seq<string>, outNames: seq<string>) {
    NamesFit(inNames, |InTypes(ps)|) && (ret == NoResult || NamesFit(outNames, |RetTypes(ret)|))
  }

  function MethodXml(name: string, ps: seq<Param>, ret: Returns, inNames: seq<string>, outNames: seq<string>)
    : MethodElement
    requires Acceptable(ps, ret, inNames, outNames)
  {
    MethodElement(name, InArgs(InTypes(ps), inNames) + OutArgs(RetTypes(ret), if ret == NoResult then [] else outNames))
  }

  /** The types a method element declares in one direction, joined as the bus joins them. */
  function Declared(args: seq<ArgElement>, d: Direction): string {
    if args == [] then "" else (if args[0].direction == d then args[0].typ else "") + Declared(args[1..], d)
  }

  lemma {:induction false} DeclaredSplits(a: seq<ArgElement>, b: seq<ArgElement>, d: Direction)
    ensures Declared(a + b, d) == Declared(a, d) + Declared(b, d)
  {
    if a == [] {
      assert a + b == b;
    } else {
      assert (a + b)[1..] == a[1..] + b;
      DeclaredSplits(a[1..], b, d);
    }
  }

  lemma {:induction false} DeclaredArgs(args: seq<ArgElement>, ts: seq<CType>, d: Direction, e: Direction)
    requires |args| == |ts| && forall k | 0 <= k < |ts| :: args[k].direction == e && args[k].typ == TypeString(ts[k])
    ensures Declared(args, d) == if d == e then TypeStrings(ts) else ""
  {
    if ts != [] {
      DeclaredArgs(args[1..], ts[1..], d, e);
    }
  }

  lemma MethodXmlTypes(name: string, ps: seq<Param>, ret: Returns, inNames: seq<string>, outNames: seq<string>)
    requires Acceptable(ps, ret, inNames, outNames)
    ensures Declared(MethodXml(name, ps, ret, inNames, outNames).args, In) == TypeStrings(InTypes(ps))
    ensures Declared(MethodXml(name, ps, ret, inNames, outNames).args, Out) == TypeStrings(RetTypes(ret))
  {
    var names := if ret == NoResult then [] else outNames;
    var ins, outs := InTypes(ps), RetTypes(ret);
    var a, b := InArgs(ins, inNames), OutArgs(outs, names);
    DeclaredSplits(a, b, In);
    DeclaredSplits(a, b, Out);
    DeclaredArgs(a, ins, In, In);
    DeclaredArgs(a, ins, Out, In);
    DeclaredArgs(b, outs, In, Out);
    DeclaredArgs(b, outs, Out, Out);
    assert TypeStrings(ins) + "" == TypeStrings(ins);
  }

  /** What a method element declares in each direction is the signature of its arguments and the
      signature of its result, contexts erased; each parses back to their wire types. */
  lemma MethodXmlDeclares(name: string, ps: seq<Param>, ret: Returns, inNames: seq<string>, outNames: seq<string>)
    requires Acceptable(ps, ret, inNames, outNames)
    ensures var args := MethodXml(name, ps, ret, inNames, outNames).args;
      && "(" + Declared(args, In) + ")" == TypeString(Tuple(false, InTypes(ps)))
      && "(" + Declared(args, Out) + ")" == TypeString(Tuple(false, RetTypes(ret)))
      && Declared(args, Out) == (match ret
         case NoResult => ""
         case Single(t) => TypeString(t)
         case Several(ts) => TypeStrings(ts))
      && ParseAll(Declared(args, In)) == Some(TypesOnWire(InTypes(ps)))
      && ParseAll(Declared(args, Out)) == Some(TypesOnWire(RetTypes(ret)))
  {
    MethodXmlTypes(name, ps, ret, inNames, outNames);
    SignatureDecodes(InTypes(ps), []);
    SignatureDecodes(RetTypes(ret), []);
    if ret.Single? {
      assert RetTypes(ret)[1..] == [];
      assert TypeString(ret.t) + TypeStrings([]) == TypeString(ret.t);
    }
  }

  ghost predicate AllNamed(args: seq<ArgElement>, names: seq<string>, prefix: string, d: Direction) {
    forall k | 0 <= k < |args| :: args[k].direction == d && Named(args[k].name, names, prefix, k)
  }

  /** The arguments come first, then the results, each under the name the program gave it. */
  ghost predicate ArgsNamed(args: seq<ArgElement>, ps: seq<Param>, ret: Returns, inNames: seq<string>,
                            outNames: seq<string>) {
    var n := |InTypes(ps)|;
    && |args| == n + |RetTypes(ret)|
    && AllNamed(args[..n], inNames, "in_arg", In)
    && AllNamed(args[n..], outNames, "out_arg", Out)
  }

  lemma MethodXmlNames(name: string, ps: seq<Param>, ret: Returns, inNames: seq<string>, outNames: seq<string>)
    requires Acceptable(ps, ret, inNames, outNames)
    ensures ArgsNamed(MethodXml(name, ps, ret, inNames, outNames).args, ps, ret, inNames, outNames)
  {
    var names := if ret == NoResult then [] else outNames;
    var args := MethodXml(name, ps, ret, inNames, outNames).args;
    var n := |InTypes(ps)|;
    assert args[..n] == InArgs(InTypes(ps), inNames) && args[n..] == OutArgs(RetTypes(ret), names);
    forall k | 0 <= k < n ensures Named(ArgName(inNames, "in_arg", k), inNames, "in_arg", k) {
      ArgNamed(inNames, "in_arg", k);
    }
    forall k | 0 <= k < |RetTypes(ret)| ensures Named(ArgName(names, "out_arg", k), outNames, "out_arg", k) {
      ArgNamed(names, "out_arg", k);
    }
  }

  /** Generated names never clash within a direction of a method. */
  lemma MethodNamesDistinct(name: string, ps: seq<Param>, ret: Returns, i: nat, j: nat)
    requires var args := MethodXml(name, ps, ret, [], []).args;
      i < j < |args| && args[i].direction == args[j].direction
    ensures var args := MethodXml(name, ps, ret, [], []).args; args[i].name != args[j].name
  {
    var n := |InTypes(ps)|;
    if j < n {
      GeneratedNamesDistinct("in_arg", i, j);
    } else {
      GeneratedNamesDistinct("out_arg", i - n, j - n);
    }
  }

  /** A signal's arguments, each under the name the program gave it and at its type. */
  ghost predicate SignalNamed(args: seq<(string, string)>, ts: seq<CType>, names: seq<string>) {
    |args| == |ts| && forall k | 0 <= k < |ts| :: args[k].0 == TypeString(ts[k]) && Named(args[k].1, names, "arg", k)
  }

  // ---------------------------------------------------------------- the handler's side

  /** The running `arg_index` when the handler reaches parameter `k`. */
  function ArgIndex(ps: seq<Param>, k: nat): (i: nat)
    requires k <= |ps|
    ensures i <= k
  {
    if k == 0 then 0 else ArgIndex(ps, k - 1) + if ps[k - 1] == ContextParam then 0 else 1
  }

  /** The handler reads every declared argument exactly once, in order and at its declared type:
      `ArgIndex` is strictly increasing on the parameters that travel and runs through 0..n-1. */
  lemma {:induction false} HandlerReadsDeclared(ps: seq<Param>, k: nat)
    requires k <= |ps|
    ensures ArgIndex(ps, k) <= |InTypes(ps)|
    ensures k == |ps| ==> ArgIndex(ps, k) == |InTypes(ps)|
    ensures k < |ps| && ps[k].ArgParam? ==>
      ArgIndex(ps, k) < |InTypes(ps)| && InTypes(ps)[ArgIndex(ps, k)] == ps[k].t
    decreases |ps|
  {
    if ps != [] {
      var n := |ps| - 1;
      var front := ps[..n];
      ArgIndexPrefix(ps, n, if k <= n then k else n);
      HandlerReadsDeclared(front, if k <= n then k else n);
      HandlerReadsDeclared(front, n);
      ArgIndexPrefix(ps, n, n);
    }
  }

  lemma {:induction false} ArgIndexPrefix(ps: seq<Param>, n: nat, k: nat)
    requires k <= n <= |ps|
    ensures ArgIndex(ps[..n], k) == ArgIndex(ps, k)
  {
    if k > 0 { ArgIndexPrefix(ps, n, k - 1); }
  }

  lemma {:induction false} ArgIndexIncreases(ps: seq<Param>, j: nat, k: nat)
    requires j <= k <= |ps|
    ensures ArgIndex(ps, j) <= ArgIndex(ps, k)
    ensures j < k && ps[j].ArgParam? ==> ArgIndex(ps, j) < ArgIndex(ps, k)
    decreases k - j
  {
    if j < k { ArgIndexIncreases(ps, j, k - 1); }
  }

  /** Every declared argument is read by some parameter. */
  lemma {:induction false} DeclaredIsRead(ps: seq<Param>, i: nat) returns (k: nat)
    requires i < |InTypes(ps)|
    ensures k < |ps| && ps[k].ArgParam? && ArgIndex(ps, k) == i
    decreases |ps|
  {
    var n := |ps| - 1;
    HandlerReadsDeclared(ps, n);
    HandlerReadsDeclared(ps[..n], n);
    ArgIndexPrefix(ps, n, n);
    if i < |InTypes(ps[..n])| {
      k := DeclaredIsRead(ps[..n], i);
      ArgIndexPrefix(ps, n, k);
    } else {
      k := n;
    }
  }
}
