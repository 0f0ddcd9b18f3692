/** A flow table and its meaning: of the flows that match a packet, one of the
    highest priority decides (section 5.3 of the OpenFlow Switch Specification
    1.3). */
module OpenFlow {
  import opened Wrappers
  import opened Cidr

  datatype Proto = TCP | UDP | SCTP

  /** What a match says about the kind of packet: nothing, `ip`, or a transport protocol over it. */
  datatype Kind = AnyPacket | AnyIP | Over(proto: Proto)

  datatype Match = Match(
    reg0: Option<nat>,
    reg1: Option<nat>,
    kind: Kind,
    reply: bool,
    src: Option<Cidr>,
    dst: Option<Cidr>,
    port: Option<nat>)

  const Everything := Match(None, None, AnyPacket, false, None, None, None)

  /** `A` is what a table can decide. */
  datatype Flow<A> = Flow(priority: nat, when: Match, action: A)

  /** `reg0` and `reg1` hold the source and the destination VNID. */
  datatype Packet = Packet(
    reg0: nat,
    reg1: nat,
    isIP: bool,
    proto: Option<Proto>,
    reply: bool,
    src: nat,
    dst: nat,
    port: nat)

  predicate Agrees<T(==)>(want: Option<T>, x: T) {
    want.Some? ==> want.value == x
  }

  predicate Within(want: Option<Cidr>, x: nat) {
    want.Some? ==> Contains(want.value, x)
  }

  predicate KindFits(k: Kind, p: Packet) {
    match k
    case AnyPacket => true
    case AnyIP => p.isIP
    case Over(proto) => p.isIP && p.proto == Some(proto)
  }

  predicate Matches(m: Match, p: Packet) {
    && Agrees(m.reg0, p.reg0) && Agrees(m.reg1, p.reg1) && KindFits(m.kind, p)
    && (m.reply ==> p.reply) && Within(m.src, p.src) && Within(m.dst, p.dst) && Agrees(m.port, p.port)
  }

  /** No matching flow comes before `f`. */
  ghost predicate Wins<A(!new)>(t: set<Flow<A>>, p: Packet, f: Flow<A>) {
    && f in t && Matches(f.when, p)
    && forall g {:trigger g in t} | g in t && Matches(g.when, p) :: g.priority <= f.priority
  }

  /** Some flow decides the packet, and whichever does decides `a`. */
  ghost predicate Decides<A(!new)>(t: set<Flow<A>>, p: Packet, a: A) {
    && (exists f :: Wins(t, p, f))
    && (forall f | Wins(t, p, f) :: f.action == a)
  }

  /** If `f` matches and every other match either ranks below or decides the same, the table decides as `f` does. */
  lemma FlowDecides<A(!new)>(t: set<Flow<A>>, p: Packet, f: Flow<A>)
    requires f in t && Matches(f.when, p)
    requires forall g {:trigger g in t} | g in t && Matches(g.when, p) ::
        g.priority < f.priority || (g.priority == f.priority && g.action == f.action)
    ensures Decides(t, p, f.action)
  {
    assert Wins(t, p, f);
  }

  lemma DecisionIsUnique<A(!new)>(t: set<Flow<A>>, p: Packet, a: A, b: A)
    requires Decides(t, p, a) && Decides(t, p, b)
    ensures a == b
  {
    var f :| Wins(t, p, f);
  }

  /** Adding a flow replaces a flow with the same match and priority. */
  function AddFlow<A(==)>(t: set<Flow<A>>, f: Flow<A>): set<Flow<A>> {
    (set g | g in t && !(g.when == f.when && g.priority == f.priority)) + {f}
  }

  /** Deleting by `reg0` deletes every flow that tests `reg0` for that value. */
  function DeleteReg0<A(==)>(t: set<Flow<A>>, v: nat): set<Flow<A>> {
    set g | g in t && g.when.reg0 != Some(v)
  }

  function DeleteReg1<A(==)>(t: set<Flow<A>>, v: nat): set<Flow<A>> {
    set g | g in t && g.when.reg1 != Some(v)
  }
}
