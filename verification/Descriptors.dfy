/**
 Descriptor passing (include/params.h:196-255): before a message is sent its direct `unix_fd_t`
 elements move to a side list and are replaced by indices; the receiver turns them back into
 descriptors of its own.
 */
module Descriptors {
  import opened Types

  /** An open file; descriptors are the names processes have for it. */
  type File = nat

  datatype DBusContext = DBusContext(busName: string, interfaceName: string, objectPath: string, name: string)

  /** A parameter of a registered callable, and what fills it. */
  datatype Param = ContextParam | ArgParam(t: CType)
  datatype Slot = Context(c: DBusContext) | Arg(v: CValue)

  predicate IsFd(p: Param) {
    p == ArgParam(Scalar(UnixFd))
  }

  ghost predicate SlotFits(p: Param, s: Slot) {
    match (p, s)
    case (ContextParam, Context(_)) => true
    case (ArgParam(t), Arg(v)) => HasType(t, v)
    case _ => false
  }

  /** `ss` is a std::tuple with element types `ps`. */
  ghost predicate SlotsFit(ps: seq<Param>, ss: seq<Slot>) {
    |ss| == |ps| < 0x8000_0000 && forall k | 0 <= k < |ps| :: SlotFits(ps[k], ss[k])
  }

  function FdSlot(n: int): Slot {
    Arg(Atomic(IntA(n)))
  }

  function FdOf(s: Slot): int {
    if s.Arg? && s.v.Atomic? && s.v.a.IntA? then s.v.a.n else -1
  }

  // ---------------------------------------------------------------- specification

  /** How many of the first `n` elements are descriptors. */
  function FdCount(ps: seq<Param>, n: nat): (c: nat)
    requires n <= |ps|
    ensures c <= n
  {
    if n == 0 then 0 else FdCount(ps, n - 1) + if IsFd(ps[n - 1]) then 1 else 0
  }

  ghost predicate AllOpen(ps: seq<Param>, ss: seq<Slot>, files: map<int, File>)
    requires |ps| == |ss|
  {
    forall k | 0 <= k < |ps| && IsFd(ps[k]) :: FdOf(ss[k]) in files
  }

  function Numbered(ps: seq<Param>, k: nat, s: Slot): Slot
    requires k < |ps|
  {
    if IsFd(ps[k]) then FdSlot(FdCount(ps, k)) else s
  }

  /** The k-th descriptor element holds index k; everything else is untouched. */
  ghost function Renumbered(ps: seq<Param>, ss: seq<Slot>): seq<Slot>
    requires |ps| == |ss|
  {
    seq(|ps|, k requires 0 <= k < |ps| => Numbered(ps, k, ss[k]))
  }

  /** The files behind the descriptors among the first `n` elements, in order. */
  ghost function Files(ps: seq<Param>, ss: seq<Slot>, files: map<int, File>, n: nat): (fs: seq<File>)
    requires |ps| == |ss| && n <= |ps| && forall k | 0 <= k < n && IsFd(ps[k]) :: FdOf(ss[k]) in files
    ensures |fs| == FdCount(ps, n)
  {
    if n == 0 then []
    else if IsFd(ps[n - 1]) then Files(ps, ss, files, n - 1) + [files[FdOf(ss[n - 1])]]
    else Files(ps, ss, files, n - 1)
  }

  /** The GUnixFDList, null exactly when there is no descriptor to send. */
  ghost function FileList(ps: seq<Param>, ss: seq<Slot>, files: map<int, File>): Option<seq<File>>
    requires |ps| == |ss| && AllOpen(ps, ss, files)
  {
    if FdCount(ps, |ps|) == 0 then None else Some(Files(ps, ss, files, |ps|))
  }

  /** What a process sees in a tuple: a descriptor stands for its open file. */
  datatype Seen = Plain(s: Slot) | Opened(f: File)

  ghost function View(ps: seq<Param>, ss: seq<Slot>, files: map<int, File>): seq<Seen>
    requires |ps| == |ss| && AllOpen(ps, ss, files)
  {
    seq(|ps|, k requires 0 <= k < |ps| => if IsFd(ps[k]) then Opened(files[FdOf(ss[k])]) else Plain(ss[k]))
  }

  ghost predicate Resolvable(ps: seq<Param>, ss: seq<Slot>, list: Option<seq<File>>)
    requires |ps| == |ss|
  {
    forall k | 0 <= k < |ps| && IsFd(ps[k]) :: list.Some? && 0 <= FdOf(ss[k]) < |list.value|
  }

  /** What the receiver is to see: an index stands for an entry of the list that came along. */
  ghost function Resolved(ps: seq<Param>, ss: seq<Slot>, list: Option<seq<File>>): seq<Seen>
    requires |ps| == |ss| && Resolvable(ps, ss, list)
  {
    seq(|ps|, k requires 0 <= k < |ps| => if IsFd(ps[k]) then Opened(list.value[FdOf(ss[k])]) else Plain(ss[k]))
  }

  // ---------------------------------------------------------------- laws

  lemma {:induction false} FdCountGrows(ps: seq<Param>, m: nat, n: nat)
    requires m <= n <= |ps|
    ensures FdCount(ps, m) <= FdCount(ps, n)
    ensures m < n && IsFd(ps[m]) ==> FdCount(ps, m) < FdCount(ps, n)
    decreases n - m
  {
    if m < n { FdCountGrows(ps, m, n - 1); }
  }

  lemma {:induction false} FileAt(ps: seq<Param>, ss: seq<Slot>, files: map<int, File>, n: nat, k: nat)
    requires |ps| == |ss| && k < n <= |ps| && AllOpen(ps, ss, files) && IsFd(ps[k])
    ensures FdCount(ps, k) < FdCount(ps, n)
    ensures Files(ps, ss, files, n)[FdCount(ps, k)] == files[FdOf(ss[k])]
    decreases n
  {
    FdCountGrows(ps, k, n);
    if k < n - 1 {
      FileAt(ps, ss, files, n - 1, k);
    }
  }

  /** Set-up undoes extraction: for any interleaving of descriptors with other elements, the
      receiver sees the sender's open files and the other elements unchanged. */
  lemma RenumberingUndone(ps: seq<Param>, ss: seq<Slot>, files: map<int, File>)
    requires |ps| == |ss| && AllOpen(ps, ss, files)
    ensures Resolvable(ps, Renumbered(ps, ss), FileList(ps, ss, files))
    ensures Resolved(ps, Renumbered(ps, ss), FileList(ps, ss, files)) == View(ps, ss, files)
  {
    var list := FileList(ps, ss, files);
    forall k | 0 <= k < |ps| && IsFd(ps[k])
      ensures list.Some? && 0 <= FdOf(Renumbered(ps, ss)[k]) < |list.value|
      ensures list.value[FdOf(Renumbered(ps, ss)[k])] == files[FdOf(ss[k])]
    {
      FileAt(ps, ss, files, |ps|, k);
    }
  }

  ghost predicate Extends(files: map<int, File>, base: map<int, File>) {
    forall fd | fd in base :: fd in files && files[fd] == base[fd]
  }

  /** Descriptors opened later do not change what a process sees. */
  lemma ViewExtends(ps: seq<Param>, ss: seq<Slot>, base: map<int, File>, files: map<int, File>)
    requires |ps| == |ss| && AllOpen(ps, ss, base) && Extends(files, base)
    ensures AllOpen(ps, ss, files) && View(ps, ss, files) == View(ps, ss, base)
  {
  }

  /** One list entry per descriptor element, and no list without one. */
  lemma ListLength(ps: seq<Param>, ss: seq<Slot>, files: map<int, File>)
    requires |ps| == |ss| && AllOpen(ps, ss, files)
    ensures FileList(ps, ss, files) == None <==> forall k | 0 <= k < |ps| :: !IsFd(ps[k])
    ensures Carried(FileList(ps, ss, files)) == FdCount(ps, |ps|)
  {
    if k :| 0 <= k < |ps| && IsFd(ps[k]) {
      FdCountGrows(ps, k, |ps|);
    } else {
      NoDescriptors(ps, |ps|);
    }
  }

  lemma {:induction false} NoDescriptors(ps: seq<Param>, n: nat)
    requires n <= |ps| && forall k | 0 <= k < n :: !IsFd(ps[k])
    ensures FdCount(ps, n) == 0
  {
    if n > 0 { NoDescriptors(ps, n - 1); }
  }

  /** Tuples with descriptors in the same places travel alike. */
  lemma SamePlaces(ps: seq<Param>, qs: seq<Param>, ss: seq<Slot>, files: map<int, File>)
    requires |ps| == |qs| == |ss| && forall k | 0 <= k < |ps| :: IsFd(ps[k]) <==> IsFd(qs[k])
    ensures Renumbered(ps, ss) == Renumbered(qs, ss) && (AllOpen(ps, ss, files) <==> AllOpen(qs, ss, files))
    ensures FdCount(ps, |ps|) == FdCount(qs, |qs|)
    ensures AllOpen(ps, ss, files) ==>
      FileList(ps, ss, files) == FileList(qs, ss, files) && View(ps, ss, files) == View(qs, ss, files)
  {
    forall k | 0 <= k <= |ps| ensures FdCount(ps, k) == FdCount(qs, k) {
      SameCount(ps, qs, k);
    }
    if AllOpen(ps, ss, files) { SameFiles(ps, qs, ss, files, |ps|); }
  }

  lemma {:induction false} SameCount(ps: seq<Param>, qs: seq<Param>, n: nat)
    requires n <= |ps| == |qs| && forall k | 0 <= k < |ps| :: IsFd(ps[k]) <==> IsFd(qs[k])
    ensures FdCount(ps, n) == FdCount(qs, n)
  {
    if n > 0 { SameCount(ps, qs, n - 1); }
  }

  lemma {:induction false} SameFiles(ps: seq<Param>, qs: seq<Param>, ss: seq<Slot>, files: map<int, File>, n: nat)
    requires n <= |ps| == |qs| == |ss| && forall k | 0 <= k < |ps| :: IsFd(ps[k]) <==> IsFd(qs[k])
    requires AllOpen(ps, ss, files)
    ensures Files(ps, ss, files, n) == Files(qs, ss, files, n)
    decreases n
  {
    if n > 0 { SameFiles(ps, qs, ss, files, n - 1); }
  }

  /** The descriptors a list brings along. */
  function Carried(list: Option<seq<File>>): nat {
    if list.Some? then |list.value| else 0
  }

  lemma RenumberedFits(ps: seq<Param>, ss: seq<Slot>)
    requires SlotsFit(ps, ss)
    ensures SlotsFit(ps, Renumbered(ps, ss))
  {
  }

  // ---------------------------------------------------------------- the two loops

  lemma {:induction false} CountBelow(used: set<int>, n: nat)
    ensures |set fd: int | 0 <= fd < n && fd !in used| + |set fd: int | 0 <= fd < n && fd in used| == n
  {
    if n > 0 {
      CountBelow(used, n - 1);
      var free, taken := set fd: int | 0 <= fd < n - 1 && fd !in used, set fd: int | 0 <= fd < n - 1 && fd in used;
      if n - 1 in used {
        assert (set fd: int | 0 <= fd < n && fd in used) == taken + {n - 1};
        assert (set fd: int | 0 <= fd < n && fd !in used) == free;
      } else {
        assert (set fd: int | 0 <= fd < n && fd in used) == taken;
        assert (set fd: int | 0 <= fd < n && fd !in used) == free + {n - 1};
      }
    }
  }

  /** A process: its open descriptors, and how many more the descriptor lists alive in it hold. */
  class Process {
    var files: map<int, File>
    var held: nat

    /** One more than the highest descriptor the process may use. */
    const limit: nat

    function Free(): set<int>
      reads this`files
    {
      set fd: int | 0 <= fd < limit && fd !in files
    }

    /** The descriptors left to the program and to the lists. */
    function Spare(): nat
      reads this`files
    {
      |Free()|
    }

    /** What is spare and what is open make up the limit. */
    lemma SpareIsRest()
      ensures Spare() + |set fd: int | 0 <= fd < limit && fd in files| == limit
    {
      CountBelow(files.Keys, limit);
      assert Free() == set fd: int | 0 <= fd < limit && fd !in files.Keys;
      assert (set fd: int | 0 <= fd < limit && fd in files) == set fd: int | 0 <= fd < limit && fd in files.Keys;
    }

    predicate Valid()
      reads this
    {
      limit <= 0x8000_0000 && held <= Spare()
    }

    /** `g_unix_fd_list_append`: the list duplicates descriptor `fd`. */
    method Append(fd: int) returns (r: Outcome<File>)
      requires Valid()
      modifies this`held
      ensures Valid()
      ensures r.Ok? <==> fd in files && old(held) + 1 <= Spare()
      ensures r.Ok? ==> r.value == files[fd]
      ensures held == old(held) + if r.Ok? then 1 else 0
    {
      if fd !in files || held == Spare() { return Fault; }
      held := held + 1;
      r := Ok(files[fd]);
    }

    /** `g_unix_fd_list_get`: the program gets a descriptor of its own for entry `index`. */
    method Get(list: Option<seq<File>>, index: int) returns (r: Outcome<int>)
      requires Valid()
      modifies this`files
      ensures Valid()
      ensures r.Ok? <==> list.Some? && 0 <= index < |list.value| && held + 1 <= old(Spare())
      ensures r.Fault? ==> files == old(files)
      ensures r.Ok? ==> 0 <= r.value < 0x8000_0000 && r.value !in old(files)
      ensures r.Ok? ==> files == old(files)[r.value := list.value[index]] && Spare() == old(Spare()) - 1
    {
      if list.None? || index < 0 || index >= |list.value| || Spare() == held { return Fault; }
      ghost var free := Free();
      assert Spare() > 0;
      var fd :| fd in Free();
      files := files[fd := list.value[index]];
      assert Free() == free - {fd};
      r := Ok(fd);
    }

    /** A list that arrives brings `n` descriptors of its own. */
    method Hold(n: nat) returns (ok: bool)
      requires Valid()
      modifies this`held
      ensures Valid() && (ok <==> old(held) + n <= Spare())
      ensures held == if ok then old(held) + n else old(held)
    {
      ok := held + n <= Spare();
      if ok { held := held + n; }
    }
  }

  /** `extract_g_unix_fd_list`: rewrites `args` in place. Every entry of the list duplicates a
      descriptor, which fails on a closed one and when the process may open no more. */
  method ExtractUnixFdList(p: Process, ps: seq<Param>, args: array<Slot>) returns (r: Outcome<Option<seq<File>>>)
    requires p.Valid() && SlotsFit(ps, args[..])
    modifies args, p`held
    ensures p.Valid()
    ensures r.Ok? <==> AllOpen(ps, old(args[..]), p.files) && old(p.held) + FdCount(ps, |ps|) <= p.Spare()
    ensures r.Ok? ==> args[..] == Renumbered(ps, old(args[..])) && r.value == FileList(ps, old(args[..]), p.files)
    ensures p.held == old(p.held) + if r.Ok? then FdCount(ps, |ps|) else 0
  {
    var list: Option<seq<File>> := None;
    var index := 0;
    ghost var ss := args[..];
    for i := 0 to |ps|
      invariant p.held == old(p.held) + index <= p.Spare()
      invariant Extracted(ps, ss, p.files, i, args[..], index, list)
    {
      if IsFd(ps[i]) {
        FdCountGrows(ps, i, |ps|);
        if list.None? { list := Some([]); }
        var file := p.Append(FdOf(args[i]));
        if file.Fault? {
          // The exception drops the list and with it the descriptors it holds.
          p.held := p.held - index;
          return Fault;
        }
        list := Some(list.value + [file.value]);
        args[i] := FdSlot(index);
        index := index + 1;
      }
    }
    assert args[..] == Renumbered(ps, ss);
    r := Ok(list);
  }

  /** The first `i` elements are dealt with. */
  ghost predicate Extracted(ps: seq<Param>, before: seq<Slot>, files: map<int, File>, i: nat, after: seq<Slot>,
                            index: nat, list: Option<seq<File>>)
    requires i <= |ps|
  {
    && |before| == |ps| == |after| && index == FdCount(ps, i)
    && (forall k | 0 <= k < i && IsFd(ps[k]) :: FdOf(before[k]) in files)
    && (forall k | 0 <= k < i :: after[k] == Numbered(ps, k, before[k]))
    && (forall k | i <= k < |ps| :: after[k] == before[k])
    && list == if index == 0 then None else Some(Files(ps, before, files, i))
  }

  /** `set_up_from_g_unix_fd_list`: every index becomes a descriptor of process `p`. */
  method SetUpFromUnixFdList(p: Process, list: Option<seq<File>>, ps: seq<Param>, args: array<Slot>)
    returns (ok: bool)
    requires p.Valid() && SlotsFit(ps, args[..])
    modifies args, p`files
    ensures p.Valid() && Extends(p.files, old(p.files)) && p.Spare() <= old(p.Spare())
    ensures ok <==> Resolvable(ps, old(args[..]), list) && p.held + FdCount(ps, |ps|) <= old(p.Spare())
    ensures ok ==> SlotsFit(ps, args[..]) && AllOpen(ps, args[..], p.files)
    ensures ok ==> View(ps, args[..], p.files) == Resolved(ps, old(args[..]), list)
  {
    ghost var ss := args[..];
    for i := 0 to |ps|
      invariant args.Length == |ps| < 0x8000_0000
      invariant p.Valid() && Extends(p.files, old(p.files)) && p.Spare() == old(p.Spare()) - FdCount(ps, i)
      invariant forall k | i <= k < |ps| :: args[k] == ss[k]
      invariant forall k | 0 <= k < i :: SlotSet(ps[k], ss[k], args[k], list, p.files)
    {
      if IsFd(ps[i]) {
        FdCountGrows(ps, i, |ps|);
        var fd := p.Get(list, FdOf(args[i]));
        if fd.Fault? { return false; }
        args[i] := FdSlot(fd.value);
      }
    }
    AllSet(ps, ss, args[..], list, p.files);
    ok := true;
  }

  ghost predicate SlotSet(p: Param, before: Slot, after: Slot, list: Option<seq<File>>, files: map<int, File>) {
    if IsFd(p) then
      && list.Some? && 0 <= FdOf(before) < |list.value| && SlotFits(p, after)
      && FdOf(after) in files && files[FdOf(after)] == list.value[FdOf(before)]
    else after == before
  }

  lemma AllSet(ps: seq<Param>, before: seq<Slot>, after: seq<Slot>, list: Option<seq<File>>, files: map<int, File>)
    requires SlotsFit(ps, before) && |after| == |ps|
    requires forall k | 0 <= k < |ps| :: SlotSet(ps[k], before[k], after[k], list, files)
    ensures SlotsFit(ps, after) && AllOpen(ps, after, files) && Resolvable(ps, before, list)
    ensures View(ps, after, files) == Resolved(ps, before, list)
  {
  }
}
