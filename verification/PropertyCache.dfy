/**
 A proxy's property cache kept in step with the object by PropertiesChanged signals
 (src/object.cpp:151-203, include/proxy.inl:46-80): runs of remote writes and signal deliveries.
 */
module PropertyCache {
  import opened Types
  import opened Codec
  import opened Fidelity
  import opened Object

  type Announcement = (string, GVariant)

  /** The object, the types at which one proxy reads its properties, the signals on their way, and
      the cache of that proxy. */
  datatype System =
    System(server: Server, readers: map<string, CType>, queue: seq<Announcement>, cache: map<string, GVariant>)

  /** A property is read at a type that writes like its own: a literal as a std::string, say. */
  ghost predicate Aligned(props: map<string, Property>, readers: map<string, CType>) {
    forall name | name in props :: name in readers && Alike(readers[name], props[name].t)
  }

  ghost predicate Valid(sys: System) {
    ServerValid(sys.server) && Aligned(sys.server.props, sys.readers)
  }

  datatype Step =
    | RemoteSet(name: string, value: GVariant)   // proxy::property(name, value), by anyone
    | Deliver                                    // the oldest signal reaches the proxy
    | LocalEdit(cell: nat, v: CValue)            // the program assigns a variable directly
    | CacheWrite(name: string, value: GVariant)  // proxy::cached_property(name, value)

  /** Steps of the bus: everything but edits behind its back. */
  predicate ByBus(s: Step) {
    s.RemoteSet? || s.Deliver?
  }

  function Next(sys: System, s: Step): System
    requires forall name | name in sys.server.props :: Placed(sys.server.props[name], sys.server.cells)
  {
    match s
    case RemoteSet(name, g) =>
      if name in sys.server.props then
        var e := SetProperty(sys.server, name, g);
        sys.(server := sys.server.(cells := e.cells), queue := sys.queue + e.signals)
      else sys
    case Deliver =>
      if sys.queue == [] then sys
      else sys.(queue := sys.queue[1..], cache := sys.cache[sys.queue[0].0 := sys.queue[0].1])
    case LocalEdit(c, v) => sys.(server := sys.server.(cells := sys.server.cells[c := v]))
    case CacheWrite(name, g) => sys.(cache := sys.cache[name := g])
  }

  /** Same object, same proxy. */
  ghost predicate Successor(sys: System, sys': System) {
    Valid(sys') && sys'.server.props == sys.server.props && sys'.readers == sys.readers
  }

  lemma NextValid(sys: System, s: Step)
    requires Valid(sys)
    ensures Successor(sys, Next(sys, s))
  {
    if s.RemoteSet? && s.name in sys.server.props {
      WriteIsAnnounced(sys.server, s.name, s.value);
    }
  }

  ghost function Run(sys: System, steps: seq<Step>): System
    requires Valid(sys)
    decreases |steps|
  {
    if steps == [] then sys
    else
      NextValid(sys, steps[0]);
      Run(Next(sys, steps[0]), steps[1..])
  }

  /** What the cache will hold once the signals on their way have arrived. */
  function Replay(cache: map<string, GVariant>, queue: seq<Announcement>): map<string, GVariant>
    decreases |queue|
  {
    if queue == [] then cache else Replay(cache[queue[0].0 := queue[0].1], queue[1..])
  }

  /** The cache entry of `name`, once up to date, is read as the object would answer. */
  ghost predicate CoherentAt(sys: System, name: string)
    requires Valid(sys) && name in sys.server.props
  {
    var p := sys.server.props[name];
    var cache := Replay(sys.cache, sys.queue);
    Readable(p) && name in cache ==> Decode(sys.readers[name], cache[name]) == Value(p, sys.server.cells)
  }

  ghost predicate Coherent(sys: System)
    requires Valid(sys)
  {
    forall name | name in sys.server.props :: CoherentAt(sys, name)
  }

  lemma {:induction false} ReplaySnoc(cache: map<string, GVariant>, queue: seq<Announcement>, e: Announcement)
    ensures Replay(cache, queue + [e]) == Replay(cache, queue)[e.0 := e.1]
    decreases |queue|
  {
    if queue == [] {
      assert (queue + [e])[1..] == [];
    } else {
      assert (queue + [e])[1..] == queue[1..] + [e];
      ReplaySnoc(cache[queue[0].0 := queue[0].1], queue[1..], e);
    }
  }

  // ---------------------------------------------------------------- one write

  function StateOf(p: Property, cells: map<nat, CValue>): CValue
    requires Placed(p, cells)
  {
    match p.backing
    case Constant(v) => v
    case Variable(c) => cells[c]
    case Callbacks(_, _, c) => cells[c]
  }

  /** What a reader gets when the cell behind the property holds `s`. */
  function Reading(p: Property, s: CValue): Outcome<CValue>
    requires Readable(p)
  {
    match p.backing
    case Constant(v) => Ok(v)
    case Variable(_) => Ok(s)
    case Callbacks(getter, _, _) => getter.value(s)
  }

  /** What the setter, given `v` in state `s`, leaves behind. */
  function Left(p: Property, s: CValue, v: CValue): CValue
    requires Writable(p)
  {
    if p.backing.Variable? then v else p.backing.setter.value(s, v).0
  }

  /** The setter throws, so that nothing is announced. */
  predicate Silent(p: Property, s: CValue, v: CValue)
    requires Writable(p)
  {
    p.backing.Callbacks? && p.backing.setter.value(s, v).1 == Threw
  }

  /** The setter, given `v` in state `s`, either makes readers get `v`, whether it accepts it or not, or
      throws and leaves what they get alone, if that matters to a cache. */
  predicate StoresAt(p: Property, s: CValue, v: CValue, cached: bool) {
    Readable(p) && Writable(p) ==>
      if Silent(p, s, v) then cached ==> Reading(p, Left(p, s, v)) == Reading(p, s)
      else Reading(p, Left(p, s, v)) == Ok(v)
  }

  /** Writing `v` to `p` changes nothing for the readers of `q`. */
  predicate Undisturbed(p: Property, q: Property, s: CValue, v: CValue) {
    Readable(q) && Writable(p) && SameCell(p, q) ==> Reading(q, Left(p, s, v)) == Reading(q, s)
  }

  /** One remote write: what does not decode or cannot be written changes nothing. */
  lemma WriteStep(sys: System, name: string, g: GVariant)
    requires Valid(sys) && name in sys.server.props
    ensures var p, o := sys.server.props[name], Decode(sys.server.props[name].t, g);
      var sys' := Next(sys, RemoteSet(name, g));
      var cache, cache' := Replay(sys.cache, sys.queue), Replay(sys'.cache, sys'.queue);
      && Successor(sys, sys')
      && (o.Fault? || !Writable(p) ==> sys'.server.cells == sys.server.cells && cache' == cache)
      && (o.Ok? && Writable(p) ==>
            var s := StateOf(p, sys.server.cells);
            && sys'.server.cells == sys.server.cells[p.backing.cell := Left(p, s, o.value)]
            && cache' == if Silent(p, s, o.value) then cache else cache[name := g])
  {
    NextValid(sys, RemoteSet(name, g));
    ReplaySnoc(sys.cache, sys.queue, (name, g));
    assert sys.queue + [] == sys.queue;
  }

  /** A remote write keeps its property coherent if and only if it does not decode or the setter
      stores the value from the state it finds. Neither a refusal nor a setter that stores something
      else holds the announcement back, and a setter that throws after storing announces nothing. */
  lemma RemoteWriteCoherent(sys: System, name: string, g: GVariant)
    requires Valid(sys) && name in sys.server.props && CoherentAt(sys, name)
    ensures Successor(sys, Next(sys, RemoteSet(name, g)))
    ensures var p, o := sys.server.props[name], Decode(sys.server.props[name].t, g);
      CoherentAt(Next(sys, RemoteSet(name, g)), name) <==>
        (o.Ok? ==> StoresAt(p, StateOf(p, sys.server.cells), o.value, name in Replay(sys.cache, sys.queue)))
  {
    WriteStep(sys, name, g);
    var p := sys.server.props[name];
    if Decode(p.t, g).Ok? { AlikeDecodes(sys.readers[name], p.t, g); }
  }

  /** It keeps another property coherent if and only if that one has no cache entry or the readers of
      that one do not notice. */
  lemma OtherWriteCoherent(sys: System, name: string, g: GVariant, other: string)
    requires Valid(sys) && name in sys.server.props && other in sys.server.props && other != name
    requires CoherentAt(sys, other)
    ensures Successor(sys, Next(sys, RemoteSet(name, g)))
    ensures var p, o := sys.server.props[name], Decode(sys.server.props[name].t, g);
      CoherentAt(Next(sys, RemoteSet(name, g)), other) <==>
        (o.Ok? && other in Replay(sys.cache, sys.queue) ==>
           Undisturbed(p, sys.server.props[other], StateOf(p, sys.server.cells), o.value))
  {
    WriteStep(sys, name, g);
  }

  /** The cache stays current over a remote write if and only if the written property stores the value
      from the state it finds and no other property in the cache reads differently. */
  lemma RemoteWriteExact(sys: System, name: string, g: GVariant)
    requires Valid(sys) && name in sys.server.props && Coherent(sys)
    ensures Successor(sys, Next(sys, RemoteSet(name, g)))
    ensures var p, o := sys.server.props[name], Decode(sys.server.props[name].t, g);
      var s, cache := StateOf(p, sys.server.cells), Replay(sys.cache, sys.queue);
      Coherent(Next(sys, RemoteSet(name, g))) <==>
        (o.Ok? ==>
           && StoresAt(p, s, o.value, name in cache)
           && forall n | n in sys.server.props && n != name && n in cache ::
             Undisturbed(p, sys.server.props[n], s, o.value))
  {
    var sys' := Next(sys, RemoteSet(name, g));
    var p, o := sys.server.props[name], Decode(sys.server.props[name].t, g);
    RemoteWriteCoherent(sys, name, g);
    forall n | n in sys.server.props && n != name
      ensures CoherentAt(sys', n) <==> (o.Ok? && n in Replay(sys.cache, sys.queue) ==>
        Undisturbed(p, sys.server.props[n], StateOf(p, sys.server.cells), o.value))
    {
      OtherWriteCoherent(sys, name, g, n);
    }
  }

  // ---------------------------------------------------------------- all runs

  /** Some cache entry, read at `u`, is what readers get in state `s`. */
  ghost predicate Cacheable(q: Property, u: CType, s: CValue)
    requires Readable(q)
  {
    exists g :: Decode(u, g) == Reading(q, s)
  }

  /** The property stores whatever can be sent to it. */
  ghost predicate Stores(p: Property, u: CType) {
    Readable(p) && Writable(p) ==>
      forall s, g :: Decode(p.t, g).Ok? ==> StoresAt(p, s, Decode(p.t, g).value, Cacheable(p, u, s))
  }

  /** Whatever can be sent to `p` leaves `q` alone, in every state in which `q` can be in a cache. */
  ghost predicate Spares(p: Property, q: Property, u: CType) {
    Readable(q) && Writable(p) && SameCell(p, q) ==>
      forall s, g :: Decode(p.t, g).Ok? && Cacheable(q, u, s) ==> Undisturbed(p, q, s, Decode(p.t, g).value)
  }

  ghost predicate Exact(props: map<string, Property>, readers: map<string, CType>)
    requires Aligned(props, readers)
  {
    && (forall n | n in props :: Stores(props[n], readers[n]))
    && forall m, n | m in props && n in props && m != n :: Spares(props[m], props[n], readers[n])
  }

  lemma WriteKeepsCoherence(sys: System, name: string, g: GVariant)
    requires Valid(sys) && Coherent(sys) && name in sys.server.props && Exact(sys.server.props, sys.readers)
    ensures Successor(sys, Next(sys, RemoteSet(name, g))) && Coherent(Next(sys, RemoteSet(name, g)))
  {
    RemoteWriteExact(sys, name, g);
    var p, o := sys.server.props[name], Decode(sys.server.props[name].t, g);
    var s, cache := StateOf(p, sys.server.cells), Replay(sys.cache, sys.queue);
    if o.Ok? {
      if Readable(p) && Writable(p) {
        CachedIsCacheable(sys, name);
        assert Stores(p, sys.readers[name]);
        assert StoresAt(p, s, o.value, Cacheable(p, sys.readers[name], s));
      }
      forall n | n in sys.server.props && n != name && n in cache
        ensures Undisturbed(p, sys.server.props[n], s, o.value)
      {
        var q := sys.server.props[n];
        if Readable(q) && Writable(p) && SameCell(p, q) {
          CachedIsCacheable(sys, n);
          assert Spares(p, q, sys.readers[n]);
        }
      }
    }
  }

  lemma CachedIsCacheable(sys: System, n: string)
    requires Valid(sys) && n in sys.server.props && Readable(sys.server.props[n]) && CoherentAt(sys, n)
    ensures n in Replay(sys.cache, sys.queue) ==>
      Cacheable(sys.server.props[n], sys.readers[n], StateOf(sys.server.props[n], sys.server.cells))
  {
    var q, cache := sys.server.props[n], Replay(sys.cache, sys.queue);
    if n in cache {
      assert Decode(sys.readers[n], cache[n]) == Reading(q, StateOf(q, sys.server.cells));
    }
  }

  lemma StepKeepsCoherence(sys: System, s: Step)
    requires Valid(sys) && Coherent(sys) && ByBus(s) && Exact(sys.server.props, sys.readers)
    ensures Successor(sys, Next(sys, s)) && Coherent(Next(sys, s))
  {
    NextValid(sys, s);
    var sys' := Next(sys, s);
    if s.Deliver? {
      forall name | name in sys'.server.props ensures CoherentAt(sys', name) {
        assert CoherentAt(sys, name);
      }
    } else if s.name in sys.server.props {
      WriteKeepsCoherence(sys, s.name, s.value);
    }
  }

  /** Over any run of remote writes and deliveries the cache stays coherent, for properties that
      store what they are sent and spare each other. */
  lemma {:induction false} CoherentRun(sys: System, steps: seq<Step>)
    requires Valid(sys) && Coherent(sys) && Exact(sys.server.props, sys.readers)
    requires forall i | 0 <= i < |steps| :: ByBus(steps[i])
    ensures Valid(Run(sys, steps)) && Coherent(Run(sys, steps))
    decreases |steps|
  {
    if steps != [] {
      StepKeepsCoherence(sys, steps[0]);
      CoherentRun(Next(sys, steps[0]), steps[1..]);
    }
  }

  /** A proxy that has just loaded its cache holds an encoding of every property that can be read. */
  ghost predicate Loaded(sys: System)
    requires Valid(sys)
  {
    && sys.queue == []
    && sys.cache.Keys <= sys.server.props.Keys
    && forall name | name in sys.cache ::
      var p := sys.server.props[name];
      && Readable(p) && Value(p, sys.server.cells).Ok?
      && Encodes(p.t, Value(p, sys.server.cells).value, sys.cache[name])
  }

  lemma LoadedIsCoherent(sys: System)
    requires Valid(sys) && Loaded(sys)
    requires forall name | name in sys.cache && name in sys.readers ::
      Supported(sys.readers[name]) && Faithful(sys.readers[name])
    ensures Coherent(sys)
  {
    forall name | name in sys.server.props ensures CoherentAt(sys, name) {
      var p := sys.server.props[name];
      if Readable(p) && name in sys.cache {
        ReadsProperty(sys.readers[name], p.t, Value(p, sys.server.cells).value, sys.cache[name]);
      }
    }
  }

  lemma ReadsProperty(u: CType, t: CType, v: CValue, g: GVariant)
    requires Alike(u, t) && Supported(u) && Faithful(u) && Encodes(t, v, g)
    ensures Decode(u, g) == Ok(v)
  {
    AlikeEncodes(u, t, v, g);
    RoundTrip(u, v, g);
  }

  /** Deliver everything: the cache itself is then read as the object answers. */
  lemma DrainedCacheIsCurrent(sys: System, steps: seq<Step>, name: string)
    requires Valid(sys) && Coherent(sys) && Exact(sys.server.props, sys.readers)
    requires forall i | 0 <= i < |steps| :: ByBus(steps[i])
    ensures Valid(Run(sys, steps))
    ensures Run(sys, steps).queue == [] ==> Current(Run(sys, steps), name)
  {
    CoherentRun(sys, steps);
    var end := Run(sys, steps);
    if name in end.server.props { assert CoherentAt(end, name); }
  }

  /** Signals arrive: after as many deliveries as there are on their way none is, and the cache holds
      what the replay promised. */
  lemma {:induction false} AllDelivered(sys: System)
    requires Valid(sys)
    ensures var end := Run(sys, seq(|sys.queue|, _ => Deliver));
      end.queue == [] && end.cache == Replay(sys.cache, sys.queue) && end.server == sys.server
    decreases |sys.queue|
  {
    var steps := seq(|sys.queue|, _ => Deliver);
    if sys.queue != [] {
      var next := Next(sys, Deliver);
      NextValid(sys, Deliver);
      AllDelivered(next);
      assert steps[1..] == seq(|next.queue|, _ => Deliver);
    }
  }

  /** `proxy::cached_property(name)`, where there is an entry, answers as the object would. */
  ghost predicate Current(sys: System, name: string)
    requires Valid(sys)
  {
    name in sys.server.props && name in sys.cache && Readable(sys.server.props[name]) ==>
      Decode(sys.readers[name], sys.cache[name]) == Value(sys.server.props[name], sys.server.cells)
  }

  // ---------------------------------------------------------------- the condition is necessary

  ghost function CellsAt(props: map<string, Property>, s: CValue): map<nat, CValue> {
    map name | name in props && !props[name].backing.Constant? :: props[name].backing.cell := s
  }

  /** The properties with `s` in every cell, and a proxy that has cached `cache`. */
  ghost function Start(props: map<string, Property>, readers: map<string, CType>, s: CValue,
                       cache: map<string, GVariant>): System {
    System(Server(props, CellsAt(props, s)), readers, [], cache)
  }

  lemma StartIsCoherent(props: map<string, Property>, readers: map<string, CType>, s: CValue,
                        cache: map<string, GVariant>)
    requires Aligned(props, readers)
    requires forall n | n in cache && n in props && Readable(props[n]) ::
      Decode(readers[n], cache[n]) == Reading(props[n], s)
    ensures Valid(Start(props, readers, s, cache)) && Coherent(Start(props, readers, s, cache))
    ensures forall n | n in props && !props[n].backing.Constant? :: StateOf(props[n], CellsAt(props, s)) == s
  {
  }

  /** Storing is necessary: where some value sent is not stored, a coherent system and a write break. */
  lemma UnstoredWriteBreaks(props: map<string, Property>, readers: map<string, CType>, name: string)
    returns (sys: System, g: GVariant)
    requires Aligned(props, readers) && name in props && !Stores(props[name], readers[name])
    ensures sys.server.props == props && sys.readers == readers && Valid(sys) && Coherent(sys)
    ensures Valid(Next(sys, RemoteSet(name, g))) && !Coherent(Next(sys, RemoteSet(name, g)))
  {
    var p, u := props[name], readers[name];
    var s;
    s, g :| Decode(p.t, g).Ok? && !StoresAt(p, s, Decode(p.t, g).value, Cacheable(p, u, s));
    var cache := map[];
    if Cacheable(p, u, s) {
      var g0 :| Decode(u, g0) == Reading(p, s);
      cache := map[name := g0];
    }
    sys := Start(props, readers, s, cache);
    StartIsCoherent(props, readers, s, cache);
    RemoteWriteExact(sys, name, g);
  }

  /** So is sparing: where some value sent to `m` changes what readers of `n` get. */
  lemma DisturbingWriteBreaks(props: map<string, Property>, readers: map<string, CType>, m: string, n: string)
    returns (sys: System, g: GVariant)
    requires Aligned(props, readers) && m in props && n in props && m != n && !Spares(props[m], props[n], readers[n])
    ensures sys.server.props == props && sys.readers == readers && Valid(sys) && Coherent(sys)
    ensures Valid(Next(sys, RemoteSet(m, g))) && !Coherent(Next(sys, RemoteSet(m, g)))
  {
    var p, q, u := props[m], props[n], readers[n];
    var s;
    s, g :| Decode(p.t, g).Ok? && Cacheable(q, u, s) && !Undisturbed(p, q, s, Decode(p.t, g).value);
    var g0 :| Decode(u, g0) == Reading(q, s);
    sys := Start(props, readers, s, map[n := g0]);
    StartIsCoherent(props, readers, s, map[n := g0]);
    RemoteWriteExact(sys, m, g);
  }

  ghost predicate Keeps(props: map<string, Property>, readers: map<string, CType>, sys: System, name: string,
                        g: GVariant) {
    Valid(sys) && Coherent(sys) && sys.server.props == props && sys.readers == readers && name in props ==>
      Valid(Next(sys, RemoteSet(name, g))) && Coherent(Next(sys, RemoteSet(name, g)))
  }

  /** Properties are exact if and only if every remote write to them keeps every coherent system
      coherent. */
  lemma CoherenceIsExact(props: map<string, Property>, readers: map<string, CType>)
    requires Aligned(props, readers)
    ensures Exact(props, readers) <==> forall sys, name, g :: Keeps(props, readers, sys, name, g)
  {
    if Exact(props, readers) {
      forall sys, name, g ensures Keeps(props, readers, sys, name, g) {
        if Valid(sys) && Coherent(sys) && sys.server.props == props && sys.readers == readers && name in props {
          WriteKeepsCoherence(sys, name, g);
        }
      }
    } else if n :| n in props && !Stores(props[n], readers[n]) {
      var sys, g := UnstoredWriteBreaks(props, readers, n);
      assert !Keeps(props, readers, sys, n, g);
    } else {
      var m, n :| m in props && n in props && m != n && !Spares(props[m], props[n], readers[n]);
      var sys, g := DisturbingWriteBreaks(props, readers, m, n);
      assert !Keeps(props, readers, sys, m, g);
    }
  }

  // ---------------------------------------------------------------- where it fails

  /** The write as the object sees it: announced with the value the getter returns from now on, or
      silent and without effect on what the getter returns. */
  lemma WriteEffect(srv: Server, name: string, g: GVariant)
    requires ServerValid(srv) && name in srv.props && Readable(srv.props[name])
    requires var p, o := srv.props[name], Decode(srv.props[name].t, g);
      o.Ok? ==> StoresAt(p, StateOf(p, srv.cells), o.value, true)
    ensures var e, p := SetProperty(srv, name, g), srv.props[name];
      && Placed(p, e.cells)
      && (e.signals == [] ==> Value(p, e.cells) == Value(p, srv.cells))
      && (e.signals != [] ==> e.signals == [(name, g)] && Decode(p.t, g) == Value(p, e.cells))
  {
    WriteIsAnnounced(srv, name, g);
  }

  /** A refused value is announced like any other: the cache then shows it, the object the old one. */
  lemma RefusedWriteIsAnnounced(sys: System, name: string, g: GVariant)
    requires Valid(sys) && name in sys.server.props && CoherentAt(sys, name)
    requires var p := sys.server.props[name];
      && p.backing.Callbacks? && Readable(p) && Writable(p) && Decode(p.t, g).Ok?
      && p.backing.setter.value(StateOf(p, sys.server.cells), Decode(p.t, g).value)
         == (StateOf(p, sys.server.cells), Rejected)
    ensures var p := sys.server.props[name];
      var sys' := Next(sys, RemoteSet(name, g));
      && SetProperty(sys.server, name, g).reply == Refused
      && Successor(sys, sys')
      && (CoherentAt(sys', name) <==> Decode(p.t, g) == Value(p, sys.server.cells))
  {
    RemoteWriteCoherent(sys, name, g);
  }

  const NAME := "Property"
  const FALSE := GLeaf(Bool, BoolA(false))
  const TRUE := GLeaf(Bool, BoolA(true))

  /** An object with one Boolean property over a flag that is down, with the given setter, and a proxy
      that has cached it. */
  function Flag(setter: (CValue, CValue) -> (CValue, Verdict)): System {
    var p := Property(Scalar(Bool), Callbacks(Some(s => Ok(s)), Some(setter), 0));
    System(Server(map[NAME := p], map[0 := Atomic(BoolA(false))]), map[NAME := p.t], [], map[NAME := FALSE])
  }

  lemma FlagWrite(setter: (CValue, CValue) -> (CValue, Verdict))
    ensures var sys := Flag(setter);
      && Valid(sys) && Coherent(sys)
      && Valid(Next(sys, RemoteSet(NAME, TRUE)))
      && (Coherent(Next(sys, RemoteSet(NAME, TRUE))) ==>
            StoresAt(sys.server.props[NAME], Atomic(BoolA(false)), Atomic(BoolA(true)), true))
  {
    var sys := Flag(setter);
    FlagIsCoherent(setter);
    RemoteWriteCoherent(sys, NAME, TRUE);
    assert Coherent(Next(sys, RemoteSet(NAME, TRUE))) ==> CoherentAt(Next(sys, RemoteSet(NAME, TRUE)), NAME);
  }

  lemma FlagIsCoherent(setter: (CValue, CValue) -> (CValue, Verdict))
    ensures Valid(Flag(setter)) && Coherent(Flag(setter)) && Decode(Scalar(Bool), TRUE) == Ok(Atomic(BoolA(true)))
  {
  }

  /** A setter that refuses every value: its refusal is announced as if it were a change. */
  lemma RefusalBreaks()
    ensures var sys := Flag((s, v) => (s, Rejected));
      && Valid(sys) && Coherent(sys)
      && SetProperty(sys.server, NAME, TRUE).reply == Refused
      && Valid(Next(sys, RemoteSet(NAME, TRUE))) && !Coherent(Next(sys, RemoteSet(NAME, TRUE)))
  {
    FlagWrite((s, v) => (s, Rejected));
  }

  /** A setter that stores its argument and then throws: the change is not announced. */
  lemma LateThrowBreaks()
    ensures var sys := Flag((s, v) => (v, Threw));
      && Valid(sys) && Coherent(sys)
      && SetProperty(sys.server, NAME, TRUE).signals == []
      && Valid(Next(sys, RemoteSet(NAME, TRUE))) && !Coherent(Next(sys, RemoteSet(NAME, TRUE)))
  {
    FlagWrite((s, v) => (v, Threw));
  }

  /** Two properties over one variable that holds `v`, both cached as `g`. */
  function Shared(t: CType, v: CValue, g: GVariant): System {
    var p := Property(t, Variable(0));
    System(Server(map["A" := p, "B" := p], map[0 := v]), map["A" := t, "B" := t], [], map["A" := g, "B" := g])
  }

  /** A write to one of two properties over one variable is not announced for the other, so the cache
      stays current only if it changes nothing. */
  lemma SharedVariableBreaks(t: CType, v: CValue, w: CValue, g: GVariant, g': GVariant)
    requires Supported(t) && Faithful(t) && Encodes(t, v, g) && Encodes(t, w, g')
    ensures var sys := Shared(t, v, g);
      && Valid(sys) && Coherent(sys)
      && Valid(Next(sys, RemoteSet("A", g')))
      && (Coherent(Next(sys, RemoteSet("A", g'))) <==> v == w)
  {
    SharedIsCoherent(t, v, g);
    RoundTrip(t, w, g');
    SharedWrite(Shared(t, v, g), t, v, w, g');
  }

  lemma SharedWrite(sys: System, t: CType, v: CValue, w: CValue, g': GVariant)
    requires Valid(sys) && Coherent(sys) && sys.server.props.Keys == {"A", "B"} && Decode(t, g') == Ok(w)
    requires sys.server.props["A"] == sys.server.props["B"] == Property(t, Variable(0)) && sys.server.cells[0] == v
    requires "A" in Replay(sys.cache, sys.queue) && "B" in Replay(sys.cache, sys.queue)
    ensures Successor(sys, Next(sys, RemoteSet("A", g')))
    ensures Coherent(Next(sys, RemoteSet("A", g'))) <==> v == w
  {
    RemoteWriteCoherent(sys, "A", g');
    OtherWriteCoherent(sys, "A", g', "B");
    VariableWrite(t, v, w);
    var sys' := Next(sys, RemoteSet("A", g'));
    assert Coherent(sys') <==> CoherentAt(sys', "A") && CoherentAt(sys', "B");
  }

  lemma VariableWrite(t: CType, v: CValue, w: CValue)
    ensures var p := Property(t, Variable(0)); StoresAt(p, v, w, true) && (Undisturbed(p, p, v, w) <==> v == w)
  {
  }

  lemma SharedIsCoherent(t: CType, v: CValue, g: GVariant)
    requires Supported(t) && Faithful(t) && Encodes(t, v, g)
    ensures Valid(Shared(t, v, g)) && Coherent(Shared(t, v, g))
  {
    AlikeReflexive(t);
    RoundTrip(t, v, g);
  }

  /** Assigning the variable behind a property keeps the cache coherent if and only if what a reader
      gets does not change: nothing announces the edit. */
  lemma LocalEditBreaks(sys: System, name: string, cell: nat, v: CValue)
    requires Valid(sys) && name in sys.server.props && CoherentAt(sys, name)
    requires Readable(sys.server.props[name]) && name in Replay(sys.cache, sys.queue)
    ensures var sys' := Next(sys, LocalEdit(cell, v));
      && Successor(sys, sys')
      && (CoherentAt(sys', name) <==>
          Value(sys.server.props[name], sys.server.cells[cell := v]) == Value(sys.server.props[name], sys.server.cells))
  {
    NextValid(sys, LocalEdit(cell, v));
  }

  // ---------------------------------------------------------------- the proxy's direct access

  /** `proxy::cached_property(name, v)`: the entry is read back as `v`, nobody else notices, and the cache
      stays current if and only if a signal under way overwrites the entry or `v` is the value. */
  lemma CacheWriteReads(sys: System, name: string, t: CType, v: CValue, g: GVariant)
    requires Valid(sys) && name in sys.server.props && Readable(sys.server.props[name]) && CoherentAt(sys, name)
    requires Alike(sys.readers[name], t) && Supported(sys.readers[name]) && Faithful(sys.readers[name])
    requires Encodes(t, v, g)
    ensures var sys' := Next(sys, CacheWrite(name, g));
      && Successor(sys, sys') && sys'.server == sys.server && sys'.queue == sys.queue
      && sys'.cache.Keys == sys.cache.Keys + {name}
      && Decode(sys.readers[name], sys'.cache[name]) == Ok(v)
      && (forall n | n in sys.cache && n != name :: sys'.cache[n] == sys.cache[n])
      && (CoherentAt(sys', name) <==>
            Announced(sys.queue, name) || Value(sys.server.props[name], sys.server.cells) == Ok(v))
  {
    ReadsProperty(sys.readers[name], t, v, g);
    CacheWriteCoherent(sys, name, g);
  }

  lemma CacheWriteCoherent(sys: System, name: string, g: GVariant)
    requires Valid(sys) && name in sys.server.props && Readable(sys.server.props[name]) && CoherentAt(sys, name)
    ensures var sys' := Next(sys, CacheWrite(name, g));
      && Successor(sys, sys')
      && (CoherentAt(sys', name) <==>
            || Announced(sys.queue, name)
            || Decode(sys.readers[name], g) == Value(sys.server.props[name], sys.server.cells))
  {
    ReplayOverwrites(sys.cache, sys.queue, name, g);
  }

  ghost predicate Announced(queue: seq<Announcement>, name: string) {
    exists k :: 0 <= k < |queue| && queue[k].0 == name
  }

  lemma {:induction false} ReplayOverwrites(cache: map<string, GVariant>, queue: seq<Announcement>, name: string,
                                            g: GVariant)
    ensures Announced(queue, name) ==> name in Replay(cache, queue)
    ensures name in Replay(cache[name := g], queue) && Replay(cache[name := g], queue)[name]
      == if Announced(queue, name) then Replay(cache, queue)[name] else g
    decreases |queue|
  {
    if queue != [] {
      var (n, h) := queue[0];
      assert Announced(queue, name) <==> n == name || Announced(queue[1..], name) by {
        if k :| 0 < k < |queue| && queue[k].0 == name { assert queue[1..][k - 1].0 == name; }
        if k :| 0 <= k < |queue[1..]| && queue[1..][k].0 == name { assert queue[k + 1].0 == name; }
      }
      if n == name {
        assert cache[name := g][n := h] == cache[n := h];
        ReplayOverwrites(cache[n := h], queue[1..], name, h);
        assert cache[n := h][name := h] == cache[n := h];
      } else {
        ReplayOverwrites(cache[n := h], queue[1..], name, g);
        assert cache[name := g][n := h] == cache[n := h][name := g];
      }
    }
  }

  /** `proxy::property(name, v)` on a property backed by a variable of the same type stores `v`. */
  lemma RemoteSetStores(srv: Server, name: string, v: CValue, g: GVariant)
    requires ServerValid(srv) && name in srv.props && srv.props[name].backing.Variable?
    requires Supported(srv.props[name].t) && Faithful(srv.props[name].t) && Encodes(srv.props[name].t, v, g)
    ensures SetProperty(srv, name, g) == Effect(srv.cells[srv.props[name].backing.cell := v], [(name, g)], Done)
  {
    RoundTrip(srv.props[name].t, v, g);
  }

  /** `proxy::property<T>(name)` asks for a std::variant<T>; for types that round-trip it returns the
      value unless T is unix_fd_t. */
  lemma RemoteGetReturns(t: CType, v: CValue, g: GVariant)
    requires Supported(t) && Faithful(t) && Encodes(t, v, g)
    ensures Decode(Variant([t]), GBoxed(g)) == Ok(VariantV(0, v)) <==> t != Scalar(UnixFd)
  {
    var alts := [t];
    OwnAttempt(alts[0], v, g);
    RoundTrip(t, v, g);
    VariantKeepsAlternative(alts, 0, v, g);
  }
}
