/** The bitfield driver: fields of one shared 32-bit register, written by concurrent put requests
    through a compare-exchange loop. Every load and every compare-exchange is one step. */
module Bitfield {
  import opened Bits
  import opened Collections
  import opened Transform
  import CommandIndex

  type u32 = x: int | 0 <= x < 0x1_0000_0000

  /** A resource of the register: its mask and its right shift. */
  datatype Field = Field(mask: u32, shift: nat)

  predicate Disjoint(fs: seq<Field>) {
    && (forall i :: 0 <= i < |fs| ==> fs[i].shift < 64)
    && forall i, j :: 0 <= i < |fs| && 0 <= j < |fs| && i != j ==> And(fs[i].mask, fs[j].mask) == 0
  }

  function PropsOf(f: Field): Props {
    Props(Arg(true, f.mask), Arg(true, f.shift), Arg(false, 0), Arg(false, 0), Arg(false, 0))
  }

  /** The put handler's request carries the complement of the mask, as 64 bits. */
  function RequestMask(f: Field): nat {
    Complement64(f.mask)
  }

  /** That is what device.c hands to the driver for a resource of that mask, in a command or directly,
      and as it is never zero the handler always takes its compare-exchange branch. */
  lemma DriverGetsRequestMask(rs: seq<CommandIndex.Resource>, o: CommandIndex.Operation, forGet: bool, f: Field)
    requires CommandIndex.FindResource(rs, o.resource) < |rs|
    requires rs[CommandIndex.FindResource(rs, o.resource)].mask == Some(f.mask)
    ensures CommandIndex.RequestFor(rs, o).mask == Some(RequestMask(f)) && RequestMask(f) != 0
    ensures var r := rs[CommandIndex.FindResource(rs, o.resource)];
            CommandIndex.ResourceInfo(r, forGet).requests[0].mask == Some(RequestMask(f))
  {
  }

  /** (d & ~mask) | value. */
  function Merge(d: u32, f: Field, value: u32): (r: u32)
    requires And(value, f.mask) == value
  {
    MergeBounds(d, f, value);
    Or(And(d, RequestMask(f)), value)
  }

  lemma {:induction false} OrBound(x: nat, y: nat, k: nat)
    requires x < Pow2(k) && y < Pow2(k)
    ensures Or(x, y) < Pow2(k)
    decreases k
  {
    if k > 0 {
      OrBound(x / 2, y / 2, k - 1);
      OrHalves(x, y);
    }
  }

  lemma MergeBounds(d: u32, f: Field, value: u32)
    ensures And(d, RequestMask(f)) >= 0
    ensures 0 <= Or(And(d, RequestMask(f)), value) < 0x1_0000_0000
  {
    hide And, Or;
    Pow2Values();
    AndBounds(d, RequestMask(f));
    AndBelow(d, RequestMask(f));
    OrBound(And(d, RequestMask(f)), value, 32);
  }

  /** A merge sets its own field and no other. */
  lemma MergeSets(d: u32, fs: seq<Field>, i: nat, j: nat, value: u32)
    requires Disjoint(fs) && i < |fs| && j < |fs| && And(value, fs[i].mask) == value
    ensures And(Merge(d, fs[i], value), fs[j].mask) == if i == j then value else And(d, fs[j].mask)
  {
    hide And, Or;
    Pow2Values();
    var m := fs[i].mask;
    AndZero(m);
    assert Merge(d, fs[i], value) == Replaced(d, m, value, 64);
    FieldWrite(d, m, value, if i == j then 0 else fs[j].mask, 64);
  }

  /** A put in progress: the value as the incoming transform left it, then the register as loaded. */
  datatype Writer = Idle | Pending(field: nat, value: u32) | Loaded(field: nat, value: u32, d: u32)

  datatype Write = Write(writer: nat, field: nat, value: u32)

  datatype System = System(data: u32, writers: map<nat, Writer>, log: seq<Write>)

  predicate WriterSound(fs: seq<Field>, w: Writer) {
    w.Idle? || (w.field < |fs| && And(w.value, fs[w.field].mask) == w.value)
  }

  /** What the incoming transform makes of a value put to a field. */
  function Masked(f: Field, v: u32): (r: u32) {
    AndBounds(Wrap(v * Pow2(f.shift)), f.mask);
    And(Wrap(v * Pow2(f.shift)), f.mask)
  }

  lemma MaskedSound(f: Field, v: u32)
    ensures 0 <= Masked(f, v) <= f.mask && And(Masked(f, v), f.mask) == Masked(f, v)
  {
    AndBounds(Wrap(v * Pow2(f.shift)), f.mask);
    AndIdempotent(Wrap(v * Pow2(f.shift)), f.mask);
  }

  lemma MaskedIsIncoming(f: Field, v: u32, log: (int, int) -> int)
    requires f.shift < 64
    ensures Incoming(Int(U32, v), PropsOf(f), log) == Int(U32, Masked(f, v))
  {
    hide And;
    MaskedSound(f, v);
    WrapIsIdentity(v);
  }

  datatype Step = Begin(w: nat, field: nat, v: u32) | Load(w: nat) | CompareExchange(w: nat, spurious: bool)

  predicate Allowed(fs: seq<Field>, s: System, step: Step) {
    match step
    case Begin(w, field, _) => field < |fs| && (w !in s.writers || s.writers[w].Idle?)
    case Load(w) => w in s.writers && s.writers[w].Pending?
    case CompareExchange(w, _) => w in s.writers && s.writers[w].Loaded?
  }

  ghost predicate Sound(fs: seq<Field>, s: System) {
    && (forall w :: w in s.writers ==> WriterSound(fs, s.writers[w]))
    && (forall i :: 0 <= i < |s.log| ==> s.log[i].field < |fs|)
  }

  /** A weak compare-exchange may also fail without cause; a failed one goes back to loading. */
  function Next(fs: seq<Field>, s: System, step: Step): System
    requires Sound(fs, s) && Allowed(fs, s, step)
  {
    match step
    case Begin(w, field, v) =>
      MaskedSound(fs[field], v);
      s.(writers := s.writers[w := Pending(field, Masked(fs[field], v))])
    case Load(w) =>
      var p := s.writers[w];
      s.(writers := s.writers[w := Loaded(p.field, p.value, s.data)])
    case CompareExchange(w, spurious) =>
      var p := s.writers[w];
      if s.data == p.d && !spurious then
        System(Merge(p.d, fs[p.field], p.value), s.writers[w := Idle], s.log + [Write(w, p.field, p.value)])
      else s.(writers := s.writers[w := Pending(p.field, p.value)])
  }

  /** The value of the last successful write to a field, or what the register started with. */
  function LastWritten(fs: seq<Field>, log: seq<Write>, initial: u32, i: nat): int
    requires i < |fs|
  {
    if log == [] then And(initial, fs[i].mask)
    else
      var last := log[|log| - 1];
      if last.field == i then last.value else LastWritten(fs, log[..|log| - 1], initial, i)
  }

  ghost predicate Inv(fs: seq<Field>, initial: u32, s: System) {
    && Sound(fs, s)
    && forall i :: 0 <= i < |fs| ==> And(s.data, fs[i].mask) == LastWritten(fs, s.log, initial, i)
  }

  lemma NextKeeps(fs: seq<Field>, initial: u32, s: System, step: Step)
    requires Disjoint(fs) && Inv(fs, initial, s) && Allowed(fs, s, step)
    ensures Inv(fs, initial, Next(fs, s, step))
  {
    hide And, Or, Merge, Masked;
    var t := Next(fs, s, step);
    match step
    case Begin(w, field, v) => MaskedSound(fs[field], v);
    case Load(w) =>
    case CompareExchange(w, spurious) =>
      var p := s.writers[w];
      if s.data == p.d && !spurious {
        assert t.log[..|s.log|] == s.log;
        forall i | 0 <= i < |fs| ensures And(t.data, fs[i].mask) == LastWritten(fs, t.log, initial, i) {
          MergeSets(p.d, fs, p.field, i, p.value);
        }
      }
  }

  ghost predicate IsRun(fs: seq<Field>, states: seq<System>, steps: seq<Step>) {
    && |states| == |steps| + 1 && states[0].writers == map[] && states[0].log == []
    && forall i :: 0 <= i < |steps| && Sound(fs, states[i]) ==>
         Allowed(fs, states[i], steps[i]) && states[i + 1] == Next(fs, states[i], steps[i])
  }

  /** No update is lost: in every state of every interleaving each field holds the value of the last
      successful write to it. */
  lemma {:induction false} NoLostUpdate(fs: seq<Field>, states: seq<System>, steps: seq<Step>, n: nat)
    requires Disjoint(fs) && IsRun(fs, states, steps) && n < |states|
    ensures Inv(fs, states[0].data, states[n])
  {
    if n > 0 {
      NoLostUpdate(fs, states, steps, n - 1);
      NextKeeps(fs, states[0].data, states[n - 1], steps[n - 1]);
    }
  }

  // ---------------------------------------------------------------- every put is carried out

  /** The writes of one writer. */
  function Of(log: seq<Write>, w: nat): seq<Write> {
    if log == [] then []
    else
      var last := log[|log| - 1];
      Of(log[..|log| - 1], w) + if last.writer == w then [last] else []
  }

  /** The puts that one writer has begun: each with its field, and the value put as the incoming
      transform leaves it. */
  function Begun(fs: seq<Field>, steps: seq<Step>, w: nat): seq<Write>
    requires forall i :: 0 <= i < |steps| && steps[i].Begin? ==> steps[i].field < |fs|
  {
    if steps == [] then []
    else
      var last := steps[|steps| - 1];
      Begun(fs, steps[..|steps| - 1], w)
      + if last.Begin? && last.w == w then
          assert steps[|steps| - 1].field < |fs|;
          [Write(w, last.field, Masked(fs[last.field], last.v))]
        else []
  }

  /** The put that a writer has under way, if any. */
  function InProgress(s: System, w: nat): seq<Write> {
    if w !in s.writers || s.writers[w].Idle? then [] else [Write(w, s.writers[w].field, s.writers[w].value)]
  }

  /** A step leaves each writer's puts where they were, logs the one it completes, or begins one. */
  lemma StepCarries(fs: seq<Field>, s: System, step: Step, w: nat)
    requires Sound(fs, s) && Allowed(fs, s, step)
    ensures var t := Next(fs, s, step);
            Of(t.log, w) + InProgress(t, w)
            == Of(s.log, w) + InProgress(s, w)
               + if step.Begin? && step.w == w then [Write(w, step.field, Masked(fs[step.field], step.v))] else []
  {
    hide Merge, Masked;
    var t := Next(fs, s, step);
    if step.CompareExchange? && |t.log| > |s.log| {
      assert t.log[..|s.log|] == s.log;
    }
  }

  /** No put is dropped, repeated or reordered: in every state of every interleaving, what a writer has
      begun is exactly what it has written, in order, followed by the put it has under way. */
  lemma {:induction false} EveryPutCarriedOut(fs: seq<Field>, states: seq<System>, steps: seq<Step>, n: nat, w: nat)
    requires Disjoint(fs) && IsRun(fs, states, steps) && n < |states|
    ensures forall i :: 0 <= i < n && steps[i].Begin? ==> steps[i].field < |fs|
    ensures Begun(fs, steps[..n], w) == Of(states[n].log, w) + InProgress(states[n], w)
  {
    hide Inv, Sound, Next, Masked;
    if n == 0 {
      assert steps[..0] == [];
    } else {
      EveryPutCarriedOut(fs, states, steps, n - 1, w);
      RunStep(fs, states, steps, n - 1);
      StepCarries(fs, states[n - 1], steps[n - 1], w);
      assert steps[..n][..n - 1] == steps[..n - 1];
    }
  }

  lemma RunStep(fs: seq<Field>, states: seq<System>, steps: seq<Step>, i: nat)
    requires Disjoint(fs) && IsRun(fs, states, steps) && i < |steps|
    ensures Sound(fs, states[i]) && Allowed(fs, states[i], steps[i]) && states[i + 1] == Next(fs, states[i], steps[i])
  {
    hide Next, Allowed, Sound;
    NoLostUpdate(fs, states, steps, i);
    var s, step, t := states[i], steps[i], states[i + 1];
  }

  /** A failed exchange changes only the writer, which goes back to load again for the same put. */
  lemma FailedExchangeRetries(fs: seq<Field>, s: System, w: nat, spurious: bool)
    requires Sound(fs, s) && w in s.writers && s.writers[w].Loaded? && (spurious || s.data != s.writers[w].d)
    ensures var p := s.writers[w];
            Next(fs, s, CompareExchange(w, spurious)) == s.(writers := s.writers[w := Pending(p.field, p.value)])
  {
  }

  /** A writer that loads and exchanges with no step between and no spurious failure is done: its value
      is in the register, the other fields are as they were, and the write is logged. */
  lemma UndisturbedPutCompletes(fs: seq<Field>, s: System, w: nat, j: nat)
    requires Disjoint(fs) && Sound(fs, s) && w in s.writers && s.writers[w].Pending? && j < |fs|
    ensures Sound(fs, Next(fs, s, Load(w)))
    ensures var p, t := s.writers[w], Next(fs, Next(fs, s, Load(w)), CompareExchange(w, false));
            && t.writers[w] == Idle && t.log == s.log + [Write(w, p.field, p.value)]
            && And(t.data, fs[j].mask) == if j == p.field then p.value else And(s.data, fs[j].mask)
  {
    hide And, Merge;
    var p := s.writers[w];
    MergeSets(s.data, fs, p.field, j, p.value);
  }

  // ---------------------------------------------------------------- reading back

  /** bitfield_get_handler: the register read as a signed 32-bit value. */
  function ReadRegister(s: System): Data {
    Int(I32, if s.data < 0x8000_0000 then s.data else s.data - 0x1_0000_0000)
  }

  predicate FitsField(f: Field, v: u32) {
    Masked(f, v) == v * Pow2(f.shift)
  }

  /** What is put to a field starts at its shift. */
  lemma MaskedIsShifted(f: Field, v: u32)
    requires f.shift < 64
    ensures Masked(f, v) % Pow2(f.shift) == 0
  {
    hide And;
    Pow2Values();
    WrappedMultiple(v, f.shift);
    AndOfMultiple(Wrap(v * Pow2(f.shift)), f.mask, f.shift);
  }

  /** Wrapping keeps the low bits clear. */
  lemma WrappedMultiple(v: int, k: nat)
    requires k < 64
    ensures Wrap(v * Pow2(k)) % Pow2(k) == 0
  {
    Pow2Values();
    Pow2Add(63 - k, k);
    var p, q := Pow2(k), Pow2(63 - k);
    hide Pow2;
    var x := v * p;
    var w := (x + TWO_63) / TWO_64;
    assert Wrap(x) == x - TWO_64 * w;
    assert TWO_64 == 2 * (q * p);
    WrappedProduct(v, p, q, w);
    DivModUnique(Wrap(x), p, v - 2 * q * w, 0);
  }

  lemma WrappedProduct(v: int, p: int, q: int, w: int)
    ensures v * p - 2 * (q * p) * w == p * (v - 2 * q * w)
  {
  }

  /** Reading a field back returns what was last put to it if and only if the value fits the field and
      is below 2^31: the register is read as a signed type, so larger ones report overflow. */
  lemma ReadBack(fs: seq<Field>, s: System, initial: u32, i: nat, v: u32, power: (int, int) -> int)
    requires Disjoint(fs) && Inv(fs, initial, s) && i < |fs|
    requires LastWritten(fs, s.log, initial, i) == Masked(fs[i], v)
    ensures Outgoing(ReadRegister(s), PropsOf(fs[i]), power) == Int(I32, v) <==> FitsField(fs[i], v) && v < 0x8000_0000
    ensures FitsField(fs[i], v) && v >= 0x8000_0000 ==> Outgoing(ReadRegister(s), PropsOf(fs[i]), power) == Overflow
  {
    hide And, Outgoing, LastWritten, Masked, Pow2, Ideal;
    var f := fs[i];
    OutgoingIsIdeal(I32, ReadRegister(s).v, PropsOf(f), power);
    IdealRead(s, f);
    MaskedIsShifted(f, v);
    Quotient(Masked(f, v), v, Pow2(f.shift));
  }

  /** A multiple is known by its quotient. */
  lemma Quotient(m: int, v: int, p: nat)
    requires p > 0 && m % p == 0
    ensures m / p == v <==> m == v * p
  {
    if m == v * p { DivModUnique(m, p, v, 0); }
  }

  lemma IdealRead(s: System, f: Field)
    ensures Ideal(ReadRegister(s).v, PropsOf(f)) == And(s.data, f.mask) / Pow2(f.shift)
  {
    hide And;
    Pow2Values();
    AndSignExtended(s.data, f.mask, 32);
  }
}
