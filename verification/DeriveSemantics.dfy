/** Two meanings of a protocol struct: the emitted program run step by step, and its fields performed
    directly by their roles. */
module DeriveSemantics {
  import opened Bytes
  import opened Roles
  import opened Derive

  // ----- integers on the wire -----

  function WidthBytes(w: Width): nat {
    match w
    case W8 => 1
    case W16 => 2
    case W32 => 4
  }

  predicate Fits(w: Width, v: u32) {
    match w
    case W8 => v < 0x100
    case W16 => v < 0x1_0000
    case W32 => true
  }

  function Be(w: Width, v: u32): (r: seq<u8>)
    ensures |r| == WidthBytes(w)
  {
    match w
    case W8 => [v % 0x100]
    case W16 => [v / 0x100 % 0x100, v % 0x100]
    case W32 => Be32(v)
  }

  function FromBe(w: Width, b: seq<u8>): (r: u32)
    requires |b| == WidthBytes(w)
    ensures Fits(w, r)
  {
    match w
    case W8 => b[0]
    case W16 => 0x100 * b[0] as int + b[1]
    case W32 => FromBe32(b)
  }

  lemma BeRoundTrip(w: Width, v: u32)
    requires Fits(w, v)
    ensures FromBe(w, Be(w, v)) == v
  {
    Be32RoundTrip(v);
  }

  lemma FromBeRoundTrip(w: Width, b: seq<u8>)
    requires |b| == WidthBytes(w)
    ensures Be(w, FromBe(w, b)) == b
  {
    hide FromBe32, Be32;
    if w == W32 {
      Be32OfWord(b);
    }
  }

  lemma Be32OfWord(b: seq<u8>)
    requires |b| == 4
    ensures Be32(FromBe32(b)) == b
  {
    var hi, lo := 0x100 * b[0] as int + b[1] as int, 0x100 * b[2] as int + b[3] as int;
    assert FromBe32(b) / 0x1_0000 == hi && FromBe32(b) % 0x1_0000 == lo;
  }

  // ----- states -----

  datatype Value = Num(width: Width, v: u32) | Nums(vs: seq<u32>) | Raw(bs: seq<u8>)

  type Env = map<string, Value>

  /** The struct, what the device will send, what was sent to it, and how much it still takes. */
  datatype State = State(env: Env, inbound: seq<u8>, sent: seq<u8>, room: nat)

  datatype Error =
    | InvalidStatus(wanted: u16, status: u16)
    | InvalidEcho(expected: u32, got: u32)
    | Io
    | Panic
    | IllTyped

  datatype Outcome = Done(st: State) | Failed(error: Error, st: State)

  function WriteAll(st: State, b: seq<u8>): Outcome {
    if |b| <= st.room then Done(st.(sent := st.sent + b, room := st.room - |b|))
    else Failed(Io, st.(sent := st.sent + b[..st.room], room := 0))
  }

  function WriteValue(st: State, v: Value): Outcome {
    match v
    case Num(w, n) => WriteAll(st, Be(w, n))
    case Raw(b) => WriteAll(st, b)
    case Nums(_) => Failed(IllTyped, st)
  }

  /** An integer off the front of the inbound bytes; too few of them are an I/O error. */
  function ReadInt(w: Width, st: State): Option<(u32, State)> {
    if |st.inbound| < WidthBytes(w) then None
    else Some((FromBe(w, st.inbound[..WidthBytes(w)]), st.(inbound := st.inbound[WidthBytes(w)..])))
  }

  function Starved(st: State): Outcome {
    Failed(Io, st.(inbound := []))
  }

  /** `count` integers, each appended to the vector `to`. */
  function ReadMany(count: nat, w: Width, to: string, st: State): Outcome {
    if count == 0 then Done(st)
    else
      match ReadInt(w, st)
      case None => Starved(st)
      case Some((v, st1)) =>
        if to in st1.env && st1.env[to].Nums? then
          ReadMany(count - 1, w, to, st1.(env := st1.env[to := Nums(st1.env[to].vs + [v])]))
        else Failed(IllTyped, st1)
  }

  // ----- the emitted program -----

  datatype Flow = Next(tmp: Option<Value>, st: State) | Stop(error: Error, st: State)

  function Lookup(p: Place, st: State): Option<Value> {
    match p
    case SelfField(x) => if x in st.env then Some(st.env[x]) else None
    case Local(c) => Some(Num(W8, c))
  }

  function FlowOf(o: Outcome, tmp: Option<Value>): Flow {
    match o
    case Done(st) => Next(tmp, st)
    case Failed(e, st) => Stop(e, st)
  }

  function Exec(op: Op, tmp: Option<Value>, st: State): Flow {
    match op
    case Load(p) =>
      var v := Lookup(p, st);
      if v.Some? then Next(v, st) else Stop(IllTyped, st)
    case Store(x) => if tmp.Some? then Next(tmp, st.(env := st.env[x := tmp.value])) else Stop(IllTyped, st)
    case SetAlways(x, v) =>
      if x in st.env && st.env[x].Num? then
        if Fits(st.env[x].width, v) then Next(tmp, st.(env := st.env[x := Num(st.env[x].width, v)]))
        else Stop(Panic, st)
      else Stop(IllTyped, st)
    case CheckStatus(s) =>
      if tmp.Some? && tmp.value.Num? then
        if tmp.value.v % 0x1_0000 != s then Stop(InvalidStatus(s, tmp.value.v % 0x1_0000), st) else Next(tmp, st)
      else Stop(IllTyped, st)
    case Send => if tmp.Some? then FlowOf(WriteValue(st, tmp.value), tmp) else Stop(IllTyped, st)
    case Receive(w) =>
      (match ReadInt(w, st)
       case None => FlowOf(Starved(st), tmp)
       case Some((v, st1)) => Next(Some(Num(w, v)), st1))
    case CheckEcho(p) =>
      var expected := Lookup(p, st);
      if tmp.Some? && tmp.value.Num? && expected.Some? && expected.value.Num? then
        if tmp.value.v != expected.value.v then Stop(InvalidEcho(expected.value.v, tmp.value.v), st) else Next(tmp, st)
      else Stop(IllTyped, st)
    case RepeatPush(n, w, x) =>
      if n in st.env && st.env[n].Num? then FlowOf(ReadMany(st.env[n].v, w, x, st), tmp) else Stop(IllTyped, st)
  }

  /** Goes on with `ops` unless the program has returned. */
  function Then(f: Flow, ops: seq<Op>): Flow {
    match f
    case Next(tmp, st) => Run(ops, tmp, st)
    case Stop(_, _) => f
  }

  function Run(ops: seq<Op>, tmp: Option<Value>, st: State): Flow
    decreases ops
  {
    if ops == [] then Next(tmp, st)
    else
      match Exec(ops[0], tmp, st)
      case Next(tmp1, st1) => Run(ops[1..], tmp1, st1)
      case Stop(e, st1) => Stop(e, st1)
  }

  /** What is left of a run when `tmp` goes out of scope. */
  function OutcomeOf(f: Flow): Outcome {
    match f
    case Next(_, st) => Done(st)
    case Stop(e, st) => Failed(e, st)
  }

  // ----- the roles, performed directly -----

  function SendField(x: string, st: State): Outcome {
    if x in st.env then WriteValue(st, st.env[x]) else Failed(IllTyped, st)
  }

  /** Sends the field, then requires the same number back. */
  function SendAndConfirm(w: Width, x: string, st: State): Outcome {
    match SendField(x, st)
    case Failed(e, st1) => Failed(e, st1)
    case Done(st1) =>
      match ReadInt(w, st1)
      case None => Starved(st1)
      case Some((v, st2)) =>
        if st.env[x].Num? then
          if v == st.env[x].v then Done(st2) else Failed(InvalidEcho(st.env[x].v, v), st2)
        else Failed(IllTyped, st2)
  }

  function ReceiveField(w: Width, x: string, st: State): Outcome {
    match ReadInt(w, st)
    case None => Starved(st)
    case Some((v, st1)) => Done(st1.(env := st1.env[x := Num(w, v)]))
  }

  function PerformScalar(role: FieldType, w: Width, x: string, st: State): Outcome {
    match role
    case Tx(Current) => SendField(x, st)
    case Tx(Always(v)) =>
      if Fits(w, v) then SendField(x, st.(env := st.env[x := Num(w, v)])) else Failed(Panic, st)
    case Rx(Value, _) => ReceiveField(w, x, st)
    case Rx(Status(s), _) =>
      (match ReadInt(w, st)
       case None => Starved(st)
       case Some((v, st1)) =>
         if v % 0x1_0000 == s then Done(st1.(env := st1.env[x := Num(w, v)]))
         else Failed(InvalidStatus(s, v % 0x1_0000), st1))
    case Rx(Size(_), _) => Failed(IllTyped, st)
    case Echo => SendAndConfirm(w, x, st)
    case Ack(TxThenRx) => SendAndConfirm(w, x, st)
    case Ack(RxThenTx) =>
      match ReceiveField(w, x, st)
      case Failed(e, st1) => Failed(e, st1)
      case Done(st1) => SendField(x, st1)
  }

  /** A borrowed slice can be sent. No other role has a meaning for it: there is no number in it to set,
      to check or to receive, as for a slice or vector anywhere else, where the generator refuses. */
  function PerformField(f: Field, st: State): Outcome {
    match f.ty
    case Ref(_) => if f.role == Tx(Current) then SendField(f.name, st) else Failed(IllTyped, st)
    case Scalar(w) => PerformScalar(f.role, w, f.name, st)
    case VecOf(Scalar(w)) =>
      if f.role.Rx? && f.role.rx.Size? && f.role.rx.field in st.env && st.env[f.role.rx.field].Num? then
        ReadMany(st.env[f.role.rx.field].v, w, f.name, st)
      else Failed(IllTyped, st)
    case _ => Failed(IllTyped, st)
  }

  function PerformFields(fields: seq<Field>, st: State): Outcome
    decreases fields
  {
    if fields == [] then Done(st)
    else
      match PerformField(fields[0], st)
      case Failed(e, st1) => Failed(e, st1)
      case Done(st1) => PerformFields(fields[1..], st1)
  }

  function PerformCommand(kind: ProtocolKind, st: State): Outcome {
    match kind
    case Naked => Done(st)
    case Command(c, echo) =>
      match WriteAll(st, [c])
      case Failed(e, st1) => Failed(e, st1)
      case Done(st1) =>
        if !echo then Done(st1)
        else
          match ReadInt(W8, st1)
          case None => Starved(st1)
          case Some((v, st2)) => if v == c then Done(st2) else Failed(InvalidEcho(c, v), st2)
  }

  function Perform(kind: ProtocolKind, fields: seq<Field>, st: State): Outcome {
    match PerformCommand(kind, st)
    case Failed(e, st1) => Failed(e, st1)
    case Done(st1) => PerformFields(fields, st1)
  }

  // ----- what the Rust compiler accepts -----

  predicate NumberOf(env: Env, x: string, w: Width) {
    x in env && env[x].Num? && env[x].width == w && Fits(w, env[x].v)
  }

  /** The emitted code type-checks against the struct. */
  predicate WellTyped(f: Field, env: Env) {
    match f.ty
    case Ref(t) => t == ByteSlice && f.name in env && env[f.name].Raw?
    case Scalar(w) => !(f.role.Rx? && f.role.rx.Size?) && NumberOf(env, f.name, w)
    case VecOf(Scalar(w)) =>
      && f.role.Rx? && f.role.rx.Size? && f.role.rx.field in env && env[f.role.rx.field].Num?
      && f.name in env && env[f.name].Nums?
    case _ => false
  }

  predicate AllWellTyped(fields: seq<Field>, env: Env) {
    forall i :: 0 <= i < |fields| ==> WellTyped(fields[i], env)
  }

  /** A reference asks to be sent as it is. */
  predicate SendsReference(f: Field) {
    f.ty.Ref? ==> f.role == Tx(Current)
  }

  predicate SendsReferences(fields: seq<Field>) {
    forall i :: 0 <= i < |fields| ==> SendsReference(fields[i])
  }

  predicate DistinctNames(fields: seq<Field>) {
    forall i, j :: 0 <= i < j < |fields| ==> fields[i].name != fields[j].name
  }
}
