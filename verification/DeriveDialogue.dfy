/** The dialogue a protocol struct declares: which bytes go either way, told from its final field values. */
module DeriveDialogue {
  import opened Bytes
  import opened Roles
  import opened Derive
  import opened DeriveSemantics
  import opened DeriveTheorems

  // ----- the declared dialogue -----

  predicate AllFit(w: Width, vs: seq<u32>) {
    forall i :: 0 <= i < |vs| ==> Fits(w, vs[i])
  }

  /** The number that bytes stand for, the most significant first. */
  function Worth(b: seq<u8>): nat {
    if b == [] then 0 else 0x100 * Worth(b[..|b| - 1]) + b[|b| - 1]
  }

  lemma BigEndian(w: Width, v: u32)
    requires Fits(w, v)
    ensures Worth(Be(w, v)) == v && |Be(w, v)| == match w case W8 => 1 case W16 => 2 case W32 => 4
  {
    var b := Be(w, v);
    match w
    case W8 =>
      assert b[..0] == [];
    case W16 =>
      assert b[..1][..0] == [] && v / 0x100 % 0x100 == v / 0x100;
      assert Worth(b[..1]) == v / 0x100;
    case W32 =>
      assert b[..3][..2] == b[..2] && b[..2][..1] == b[..1] && b[..1][..0] == [];
      var hi, lo := v / 0x1_0000, v % 0x1_0000;
      assert Worth(b[..1]) == hi / 0x100 && Worth(b[..2]) == hi;
      assert Worth(b[..3]) == 0x100 * hi + lo / 0x100;
  }

  function BeAll(w: Width, vs: seq<u32>): seq<u8> {
    if vs == [] then [] else Be(w, vs[0]) + BeAll(w, vs[1..])
  }

  /** Numbers the peer appended to a vector. */
  function Appended(before: Value, after: Value): seq<u32> {
    if before.Nums? && after.Nums? && |before.vs| <= |after.vs| then after.vs[|before.vs|..] else []
  }

  /** Does the field get its value from the peer? */
  predicate FromPeer(role: FieldType) {
    role.Rx? || role == Ack(RxThenTx)
  }

  /** `after` is a value the field may end with. */
  predicate FieldOk(f: Field, env: Env, after: Value) {
    WellTyped(f, env) && SendsReference(f) &&
    match f.ty
    case Scalar(w) =>
      if FromPeer(f.role) then
        && after.Num? && after.width == w && Fits(w, after.v)
        && (f.role.Rx? && f.role.rx.Status? ==> after.v % 0x1_0000 == f.role.rx.status)
      else if f.role.Tx? && f.role.tx.Always? then Fits(w, f.role.tx.value) && after == Num(w, f.role.tx.value)
      else after == env[f.name]
    case VecOf(e) =>
      && after.Nums? && env[f.name].vs <= after.vs
      && |Appended(env[f.name], after)| == env[f.role.rx.field].v && AllFit(e.width, Appended(env[f.name], after))
    case _ => after == env[f.name]
  }

  /** Bytes the peer sends for the field. */
  function FieldIn(f: Field, env: Env, after: Value): seq<u8> {
    match f.ty
    case Scalar(w) => if f.role.Tx? || !after.Num? then [] else Be(w, after.v)
    case VecOf(Scalar(w)) => if f.name in env then BeAll(w, Appended(env[f.name], after)) else []
    case _ => []
  }

  /** Bytes sent for the field. */
  function FieldOut(f: Field, after: Value): seq<u8> {
    if f.role.Rx? && !f.ty.Ref? then []
    else
      match after
      case Num(w, v) => Be(w, v)
      case Raw(b) => b
      case Nums(_) => []
  }

  /** One step of the dialogue. */
  predicate Spoken(f: Field, st: State, st': State) {
    && f.name in st'.env
    && var after := st'.env[f.name];
       && FieldOk(f, st.env, after)
       && st'.env == st.env[f.name := after]
       && st.inbound == FieldIn(f, st.env, after) + st'.inbound
       && st'.sent == st.sent + FieldOut(f, after)
       && st.room == |FieldOut(f, after)| + st'.room
  }

  // ----- one field -----

  lemma ReadsExactly(w: Width, v: u32, st: State, rest: seq<u8>)
    requires Fits(w, v) && st.inbound == Be(w, v) + rest
    ensures ReadInt(w, st) == Some((v, st.(inbound := rest)))
  {
    hide Be, FromBe;
    BeRoundTrip(w, v);
    assert st.inbound[..WidthBytes(w)] == Be(w, v) && st.inbound[WidthBytes(w)..] == rest;
  }

  lemma ReadWhat(w: Width, st: State)
    requires ReadInt(w, st).Some?
    ensures
      var (v, st1) := ReadInt(w, st).value;
      Fits(w, v) && st.inbound == Be(w, v) + st1.inbound && st1 == st.(inbound := st1.inbound)
  {
    hide Be, FromBe;
    FromBeRoundTrip(w, st.inbound[..WidthBytes(w)]);
  }

  lemma {:induction false} ReadManyReads(count: nat, w: Width, to: string, st: State) returns (vs: seq<u32>)
    requires to in st.env && st.env[to].Nums? && ReadMany(count, w, to, st).Done?
    ensures |vs| == count && AllFit(w, vs)
    ensures
      var st' := ReadMany(count, w, to, st).st;
      st' == st.(env := st.env[to := Nums(st.env[to].vs + vs)], inbound := st'.inbound)
      && st.inbound == BeAll(w, vs) + st'.inbound
  {
    hide Be, FromBe, ReadInt;
    if count == 0 {
      vs := [];
      assert st.env[to].vs + [] == st.env[to].vs;
      assert st.env[to := st.env[to]] == st.env;
    } else {
      ReadWhat(w, st);
      var (v, st1) := ReadInt(w, st).value;
      var st2 := st1.(env := st1.env[to := Nums(st1.env[to].vs + [v])]);
      var rest := ReadManyReads(count - 1, w, to, st2);
      vs := [v] + rest;
      assert st.env[to].vs + [v] + rest == st.env[to].vs + vs;
      assert vs[1..] == rest;
    }
  }

  lemma {:induction false} ReadManyAccepts(w: Width, to: string, st: State, vs: seq<u32>, rest: seq<u8>)
    requires to in st.env && st.env[to].Nums? && AllFit(w, vs)
    requires st.inbound == BeAll(w, vs) + rest
    ensures ReadMany(|vs|, w, to, st) == Done(st.(env := st.env[to := Nums(st.env[to].vs + vs)], inbound := rest))
    decreases vs
  {
    hide Be, FromBe, ReadInt, Fits;
    if vs == [] {
      assert st.env[to].vs + [] == st.env[to].vs;
      assert st.env[to := st.env[to]] == st.env;
    } else {
      ConcatAssoc(Be(w, vs[0]), BeAll(w, vs[1..]), rest);
      ReadsExactly(w, vs[0], st, BeAll(w, vs[1..]) + rest);
      var st2 := st.(env := st.env[to := Nums(st.env[to].vs + [vs[0]])], inbound := BeAll(w, vs[1..]) + rest);
      ReadManyAccepts(w, to, st2, vs[1..], rest);
      assert st.env[to].vs + [vs[0]] + vs[1..] == st.env[to].vs + vs;
    }
  }

  lemma VectorDialogue(f: Field, st: State, st': State)
    requires WellTyped(f, st.env) && f.ty.VecOf?
    ensures PerformField(f, st) == Done(st') <==> Spoken(f, st, st')
  {
    hide Be, FromBe, ReadInt, ReadMany, BeAll;
    var x, w, count := f.name, f.ty.elem.width, st.env[f.role.rx.field].v;
    var before := st.env[x];
    if PerformField(f, st) == Done(st') {
      var vs := ReadManyReads(count, w, x, st);
      assert Appended(before, st'.env[x]) == vs;
    }
    if Spoken(f, st, st') {
      var vs := Appended(before, st'.env[x]);
      assert before.vs + vs == st'.env[x].vs;
      ReadManyAccepts(w, x, st, vs, st'.inbound);
    }
  }

  lemma ScalarDialogue(f: Field, st: State, st': State)
    requires WellTyped(f, st.env) && f.ty.Scalar?
    ensures PerformField(f, st) == Done(st') <==> Spoken(f, st, st')
  {
    hide Be, FromBe, ReadMany, BeAll, Appended;
    var x, w := f.name, f.ty.width;
    assert st.env[x := st.env[x]] == st.env;
    if PerformField(f, st) == Done(st') && !f.role.Tx? {
      if FromPeer(f.role) { ReadWhat(w, st); } else { ReadWhat(w, WriteAll(st, Be(w, st.env[x].v)).st); }
    }
    if Spoken(f, st, st') && !f.role.Tx? {
      var v := st'.env[x].v;
      if FromPeer(f.role) { ReadsExactly(w, v, st, st'.inbound); }
      else { ReadsExactly(w, v, WriteAll(st, Be(w, v)).st, st'.inbound); }
    }
  }

  /** A field succeeds exactly on its declared part of the dialogue. */
  lemma FieldDialogue(f: Field, st: State, st': State)
    requires WellTyped(f, st.env)
    ensures PerformField(f, st) == Done(st') <==> Spoken(f, st, st')
  {
    hide Be, FromBe, ReadMany, BeAll, Appended;
    match f.ty
    case VecOf(_) => VectorDialogue(f, st, st');
    case Scalar(_) => ScalarDialogue(f, st, st');
    case Ref(_) =>
      assert st.env[f.name := st.env[f.name]] == st.env;
  }

  // ----- the whole struct -----

  /** From `env`, the fields may end with the values they have in `env'`. */
  predicate AllOk(fields: seq<Field>, env: Env, env': Env) {
    if fields == [] then env' == env
    else
      var x := fields[0].name;
      x in env' && FieldOk(fields[0], env, env'[x]) && AllOk(fields[1..], env[x := env'[x]], env')
  }

  function ValueIn(env: Env, x: string): Value {
    if x in env then env[x] else Raw([])
  }

  /** Everything the peer sends, in declaration order. */
  function AllIn(fields: seq<Field>, env: Env, env': Env): seq<u8> {
    if fields == [] then []
    else FieldIn(fields[0], env, ValueIn(env', fields[0].name)) + AllIn(fields[1..], env, env')
  }

  /** Everything sent: the final values of the sending fields, in declaration order. */
  function AllOut(fields: seq<Field>, env': Env): seq<u8> {
    if fields == [] then []
    else FieldOut(fields[0], ValueIn(env', fields[0].name)) + AllOut(fields[1..], env')
  }

  predicate Unnamed(x: string, fields: seq<Field>) {
    forall i :: 0 <= i < |fields| ==> fields[i].name != x
  }

  /** A field's own bytes do not depend on another field's value. */
  lemma {:induction false} InboundIgnores(fields: seq<Field>, env: Env, env': Env, x: string, v: Value)
    requires Unnamed(x, fields)
    ensures AllIn(fields, env[x := v], env') == AllIn(fields, env, env')
  {
    hide BeAll, Be, Appended;
    if fields != [] {
      assert fields[0].name != x;
      UnnamedRest(x, fields);
      InboundIgnores(fields[1..], env, env', x, v);
    }
  }

  lemma UnnamedRest(x: string, fields: seq<Field>)
    requires Unnamed(x, fields) && fields != []
    ensures Unnamed(x, fields[1..])
  {
  }

  lemma DistinctRest(fields: seq<Field>)
    requires DistinctNames(fields) && fields != []
    ensures DistinctNames(fields[1..]) && Unnamed(fields[0].name, fields[1..])
  {
  }

  lemma ReadManyTouches(count: nat, w: Width, to: string, st: State, x: string)
    requires x != to && x in st.env
    ensures
      var env' := ReadMany(count, w, to, st).st.env;
      x in env' && env'[x] == st.env[x]
  {
    hide FromBe;
  }

  lemma FieldTouches(f: Field, st: State, x: string)
    requires WellTyped(f, st.env) && x != f.name && x in st.env
    ensures
      var env' := PerformField(f, st).st.env;
      x in env' && env'[x] == st.env[x]
  {
    hide FromBe, Be, ReadMany;
    if f.ty.VecOf? {
      ReadManyTouches(st.env[f.role.rx.field].v, f.ty.elem.width, f.name, st, x);
    }
  }

  /** Later fields leave an earlier one alone, whether they succeed or not. */
  lemma {:induction false} FieldsTouch(fields: seq<Field>, st: State, x: string)
    requires AllWellTyped(fields, st.env) && Unnamed(x, fields) && x in st.env
    ensures
      var env' := PerformFields(fields, st).st.env;
      x in env' && env'[x] == st.env[x]
    decreases fields
  {
    hide PerformField, WellTyped, KeepsShape;
    if fields != [] {
      FieldTouches(fields[0], st, x);
      var st1 := PerformField(fields[0], st).st;
      if PerformField(fields[0], st).Done? {
        FieldKeepsShape(fields[0], st);
        TypesAreKept(fields[1..], st.env, st1.env);
        FieldsTouch(fields[1..], st1, x);
      }
    }
  }

  /** The fields succeed exactly on their declared dialogue. */
  predicate AllSpoken(fields: seq<Field>, st: State, st': State) {
    && AllOk(fields, st.env, st'.env)
    && st.inbound == AllIn(fields, st.env, st'.env) + st'.inbound
    && st'.sent == st.sent + AllOut(fields, st'.env)
    && st.room == |AllOut(fields, st'.env)| + st'.room
  }

  lemma {:induction false} FieldsSpeak(fields: seq<Field>, st: State)
    requires AllWellTyped(fields, st.env) && DistinctNames(fields) && PerformFields(fields, st).Done?
    ensures AllSpoken(fields, st, PerformFields(fields, st).st)
    decreases fields
  {
    hide PerformField, WellTyped, KeepsShape, FieldOk, FieldIn, FieldOut;
    if fields != [] {
      var f, rest := fields[0], fields[1..];
      var st1, st' := PerformField(f, st).st, PerformFields(fields, st).st;
      FieldDialogue(f, st, st1);
      FieldKeepsShape(f, st);
      TypesAreKept(rest, st.env, st1.env);
      DistinctRest(fields);
      FieldsSpeak(rest, st1);
      FieldsTouch(rest, st1, f.name);
      InboundIgnores(rest, st.env, st'.env, f.name, st1.env[f.name]);
      var own := st1.env[f.name];
      ConcatAssoc(FieldIn(f, st.env, own), AllIn(rest, st.env, st'.env), st'.inbound);
      ConcatAssoc(st.sent, FieldOut(f, own), AllOut(rest, st'.env));
    }
  }

  lemma {:induction false} FieldsUnderstand(fields: seq<Field>, st: State, st': State)
    requires AllWellTyped(fields, st.env) && DistinctNames(fields) && AllSpoken(fields, st, st')
    ensures PerformFields(fields, st) == Done(st')
    decreases fields
  {
    hide PerformField, WellTyped, KeepsShape, FieldOk, FieldIn, FieldOut;
    if fields != [] {
      var f, rest := fields[0], fields[1..];
      var own := st'.env[f.name];
      var st1 := State(st.env[f.name := own], AllIn(rest, st.env, st'.env) + st'.inbound,
                       st.sent + FieldOut(f, own), st.room - |FieldOut(f, own)|);
      ConcatAssoc(FieldIn(f, st.env, own), AllIn(rest, st.env, st'.env), st'.inbound);
      ConcatAssoc(st.sent, FieldOut(f, own), AllOut(rest, st'.env));
      FieldDialogue(f, st, st1);
      FieldKeepsShape(f, st);
      TypesAreKept(rest, st.env, st1.env);
      DistinctRest(fields);
      InboundIgnores(rest, st.env, st'.env, f.name, own);
      FieldsUnderstand(rest, st1, st');
    }
  }

  function CommandIn(kind: ProtocolKind): seq<u8> {
    match kind
    case Naked => []
    case Command(c, echo) => if echo then [c] else []
  }

  function CommandOut(kind: ProtocolKind): seq<u8> {
    match kind
    case Naked => []
    case Command(c, _) => [c]
  }

  lemma CommandDialogue(kind: ProtocolKind, st: State, st': State)
    ensures PerformCommand(kind, st) == Done(st') <==>
      && st'.env == st.env && st.inbound == CommandIn(kind) + st'.inbound
      && st'.sent == st.sent + CommandOut(kind) && st.room == |CommandOut(kind)| + st'.room
  {
    hide Be, FromBe;
    assert [] + st'.inbound == st'.inbound && st.sent + [] == st.sent;
    if kind.Command? && kind.echo {
      var c := kind.command;
      assert Be(W8, c) == [c] by { BeByte(c); }
      if PerformCommand(kind, st) == Done(st') { ReadWhat(W8, WriteAll(st, [c]).st); }
      if st.inbound == [c] + st'.inbound && WriteAll(st, [c]).Done? {
        ReadsExactly(W8, c, WriteAll(st, [c]).st, st'.inbound);
      }
    }
  }

  lemma BeByte(c: u8)
    ensures Be(W8, c) == [c]
  {
  }

  /** The declared dialogue of a struct from `st` to `st'`. */
  predicate Dialogue(kind: ProtocolKind, fields: seq<Field>, st: State, st': State) {
    && AllOk(fields, st.env, st'.env)
    && st.inbound == CommandIn(kind) + AllIn(fields, st.env, st'.env) + st'.inbound
    && st'.sent == st.sent + CommandOut(kind) + AllOut(fields, st'.env)
    && st.room == |CommandOut(kind)| + |AllOut(fields, st'.env)| + st'.room
  }

  /** The emitted program succeeds exactly on the declared dialogue: the command and then the final values
      of the sending fields go out, big-endian and in declaration order; the command's echo and then the
      values of the receiving fields come in; every other field is as it was. References are sent. */
  lemma EmittedProgramSpeaks(kind: ProtocolKind, fields: seq<Field>, tmp: Option<Value>, st: State, st': State)
    requires AllWellTyped(fields, st.env) && DistinctNames(fields)
    ensures Compile(kind, fields).Some?
    ensures OutcomeOf(Run(Compile(kind, fields).value, tmp, st)) == Done(st')
       <==> Dialogue(kind, AllSent(fields), st, st')
  {
    hide Run, Compile, AllWellTyped, Perform, Dialogue;
    EmittedMeans(kind, fields, tmp, st);
    ReferenceRolesAreIgnored(fields, st.env);
    SameNames(fields);
    RolesSpeak(kind, AllSent(fields), st, st');
  }

  lemma SameNames(fields: seq<Field>)
    requires DistinctNames(fields)
    ensures DistinctNames(AllSent(fields))
  {
  }

  /** The roles succeed exactly on the declared dialogue. */
  lemma RolesSpeak(kind: ProtocolKind, fields: seq<Field>, st: State, st': State)
    requires AllWellTyped(fields, st.env) && DistinctNames(fields)
    ensures Perform(kind, fields, st) == Done(st') <==> Dialogue(kind, fields, st, st')
  {
    hide PerformCommand, PerformFields, AllWellTyped, DistinctNames, AllOk, AllIn, AllOut, CommandIn, CommandOut;
    var outIn, outAll := CommandIn(kind), CommandOut(kind);
    var st1 := State(st.env, AllIn(fields, st.env, st'.env) + st'.inbound, st.sent + outAll,
                     if st.room >= |outAll| then st.room - |outAll| else 0);
    ConcatAssoc(outIn, AllIn(fields, st.env, st'.env), st'.inbound);
    if Perform(kind, fields, st) == Done(st') {
      var mid := PerformCommand(kind, st).st;
      CommandDialogue(kind, st, mid);
      FieldsSpeak(fields, mid);
    }
    if Dialogue(kind, fields, st, st') {
      CommandDialogue(kind, st, st1);
      FieldsUnderstand(fields, st1, st');
    }
  }

  // ----- failure -----

  /** What was sent since `st` is the front part of `all`. */
  predicate SentPart(st: State, st': State, all: seq<u8>) {
    st.sent <= st'.sent && st'.sent[|st.sent|..] <= all
  }

  lemma ReadManySendsNothing(count: nat, w: Width, to: string, st: State)
    ensures ReadMany(count, w, to, st).st.sent == st.sent
  {
    hide FromBe;
  }

  lemma ReceiverFails(f: Field, st: State)
    requires WellTyped(f, st.env) && f.role.Rx? && !f.ty.Ref? && PerformField(f, st).Failed?
    ensures PerformField(f, st).st.sent == st.sent
  {
    hide FromBe, Be, ReadMany;
    if f.ty.VecOf? {
      ReadManySendsNothing(st.env[f.role.rx.field].v, f.ty.elem.width, f.name, st);
    }
  }

  lemma SenderFails(f: Field, st: State)
    requires WellTyped(f, st.env) && (f.ty.Ref? || !f.role.Rx?) && PerformField(f, st).Failed?
    ensures
      var st' := PerformField(f, st).st;
      f.name in st'.env && SentPart(st, st', FieldOut(f, st'.env[f.name]))
  {
    hide FromBe, Be, ReadMany, WriteAll, ReadInt, SentPart;
    NothingSent(st);
    if f.ty.Scalar? {
      var x, w := f.name, f.ty.width;
      if f.role.Tx? {
        SendFails(x, if f.role.tx.Always? then st.(env := st.env[x := Num(w, f.role.tx.value)]) else st);
        SameSent(st, st.(env := st.env[x := Num(w, if f.role.tx.Always? then f.role.tx.value else 0)]));
      } else if f.role == Ack(RxThenTx) {
        if ReadInt(w, st).Some? {
          ReadKeepsSent(w, st);
          var (v, st1) := ReadInt(w, st).value;
          SendFails(x, st1.(env := st1.env[x := Num(w, v)]));
          SameSent(st, st1.(env := st1.env[x := Num(w, v)]));
        }
      } else {
        ConfirmFails(w, x, st);
      }
    } else {
      SendFails(f.name, st);
    }
  }

  lemma NothingSent(st: State)
    ensures forall st': State, all: seq<u8> :: st'.sent == st.sent ==> SentPart(st, st', all)
  {
  }

  lemma SameSent(st: State, from: State)
    requires from.sent == st.sent
    ensures forall st': State, all: seq<u8> :: SentPart(from, st', all) ==> SentPart(st, st', all)
  {
  }

  lemma ReadKeepsSent(w: Width, st: State)
    requires ReadInt(w, st).Some?
    ensures ReadInt(w, st).value.1.sent == st.sent
  {
    hide FromBe;
  }

  lemma SendFails(x: string, st: State)
    requires x in st.env && (st.env[x].Num? || st.env[x].Raw?)
    ensures
      var st', v := SendField(x, st).st, st.env[x];
      st'.env == st.env && SentPart(st, st', if v.Num? then Be(v.width, v.v) else v.bs)
  {
    hide Be;
  }

  lemma ConfirmFails(w: Width, x: string, st: State)
    requires x in st.env && st.env[x].Num?
    ensures
      var st' := SendAndConfirm(w, x, st).st;
      st'.env == st.env && SentPart(st, st', Be(st.env[x].width, st.env[x].v))
  {
    hide Be, FromBe;
  }

  lemma FieldFails(f: Field, st: State)
    requires WellTyped(f, st.env) && PerformField(f, st).Failed?
    ensures
      var st' := PerformField(f, st).st;
      f.name in st'.env && SentPart(st, st', FieldOut(f, st'.env[f.name]))
  {
    hide PerformField, WellTyped;
    if f.role.Rx? && !f.ty.Ref? {
      FieldKeepsShape(f, st);
      HasField(f, st.env);
      ReceiverFails(f, st);
    } else {
      SenderFails(f, st);
    }
  }

  lemma HasField(f: Field, env: Env)
    requires WellTyped(f, env)
    ensures f.name in env
  {
  }

  lemma {:induction false} FieldsFail(fields: seq<Field>, st: State)
    requires AllWellTyped(fields, st.env) && DistinctNames(fields) && PerformFields(fields, st).Failed?
    ensures SentPart(st, PerformFields(fields, st).st, AllOut(fields, PerformFields(fields, st).st.env))
    decreases fields
  {
    hide PerformField, WellTyped, KeepsShape, FieldOut;
    var f, rest := fields[0], fields[1..];
    var st1, st' := PerformField(f, st).st, PerformFields(fields, st).st;
    if PerformField(f, st).Failed? {
      FieldFails(f, st);
    } else {
      FieldDialogue(f, st, st1);
      FieldKeepsShape(f, st);
      TypesAreKept(rest, st.env, st1.env);
      DistinctRest(fields);
      FieldsFail(rest, st1);
      FieldsTouch(rest, st1, f.name);
      var own := FieldOut(f, st1.env[f.name]);
      assert st'.sent[|st.sent|..] == own + st'.sent[|st1.sent|..];
    }
  }

  /** When the emitted program fails, wherever that is, what it has sent is a front part of the dialogue its
      fields declare, never anything out of order. */
  lemma FailureSendsPrefix(kind: ProtocolKind, fields: seq<Field>, tmp: Option<Value>, st: State)
    requires AllWellTyped(fields, st.env) && DistinctNames(fields)
    requires Compile(kind, fields).Some? && OutcomeOf(Run(Compile(kind, fields).value, tmp, st)).Failed?
    ensures
      var st' := OutcomeOf(Run(Compile(kind, fields).value, tmp, st)).st;
      SentPart(st, st', CommandOut(kind) + AllOut(AllSent(fields), st'.env))
  {
    hide Run, Compile, AllWellTyped, Perform;
    EmittedMeans(kind, fields, tmp, st);
    ReferenceRolesAreIgnored(fields, st.env);
    SameNames(fields);
    RolesFail(kind, AllSent(fields), st);
  }

  lemma RolesFail(kind: ProtocolKind, fields: seq<Field>, st: State)
    requires AllWellTyped(fields, st.env) && DistinctNames(fields) && Perform(kind, fields, st).Failed?
    ensures
      var st' := Perform(kind, fields, st).st;
      SentPart(st, st', CommandOut(kind) + AllOut(fields, st'.env))
  {
    hide PerformFields, AllWellTyped, DistinctNames, AllOut;
    var mid, st' := PerformCommand(kind, st).st, Perform(kind, fields, st).st;
    if PerformCommand(kind, st).Done? {
      CommandDialogue(kind, st, mid);
      FieldsFail(fields, mid);
      assert st'.sent[|st.sent|..] == CommandOut(kind) + st'.sent[|mid.sent|..];
    } else {
      CommandFails(kind, st);
    }
  }

  lemma CommandFails(kind: ProtocolKind, st: State)
    requires PerformCommand(kind, st).Failed?
    ensures SentPart(st, PerformCommand(kind, st).st, CommandOut(kind))
  {
    hide FromBe;
  }

  /** An `always` value too big for its field; the emitted `try_into().unwrap()` panics on it. */
  predicate Oversized(f: Field) {
    f.ty.Scalar? && f.role.Tx? && f.role.tx.Always? && !Fits(f.ty.width, f.role.tx.value)
  }

  lemma {:induction false} ReadManyFailsHow(count: nat, w: Width, to: string, st: State)
    requires to in st.env && st.env[to].Nums? && ReadMany(count, w, to, st).Failed?
    ensures ReadMany(count, w, to, st).error == Io && ReadMany(count, w, to, st).st.inbound == []
  {
    hide FromBe;
    if ReadInt(w, st).Some? {
      var (v, st1) := ReadInt(w, st).value;
      ReadManyFailsHow(count - 1, w, to, st1.(env := st1.env[to := Nums(st1.env[to].vs + [v])]));
    }
  }

  lemma FieldFailsHow(f: Field, st: State)
    requires WellTyped(f, st.env) && SendsReference(f) && PerformField(f, st).Failed?
    ensures PerformField(f, st).error != IllTyped
    ensures PerformField(f, st).error == Panic <==> Oversized(f)
  {
    hide FromBe, Be, ReadMany;
    if f.ty.VecOf? {
      ReadManyFailsHow(st.env[f.role.rx.field].v, f.ty.elem.width, f.name, st);
    }
  }

  lemma {:induction false} ReadManyKeepsRoom(count: nat, w: Width, to: string, st: State)
    ensures ReadMany(count, w, to, st).st.sent == st.sent && ReadMany(count, w, to, st).st.room == st.room
  {
    hide FromBe;
    if count > 0 && ReadInt(w, st).Some? && to in st.env && st.env[to].Nums? {
      var (v, st1) := ReadInt(w, st).value;
      ReadManyKeepsRoom(count - 1, w, to, st1.(env := st1.env[to := Nums(st1.env[to].vs + [v])]));
    }
  }

  /** Conservation: failed or not, all that the port has taken was sent, up to its last byte of room. */
  lemma {:induction false} RoomIsConserved(fields: seq<Field>, st: State)
    ensures
      var st' := PerformFields(fields, st).st;
      |st'.sent| + st'.room == |st.sent| + st.room
    decreases fields
  {
    hide FromBe, Be;
    if fields != [] {
      FieldConserves(fields[0], st);
      hide PerformField;
      if PerformField(fields[0], st).Done? {
        RoomIsConserved(fields[1..], PerformField(fields[0], st).st);
      }
    }
  }

  lemma SendConserves(x: string, st: State)
    ensures
      var st' := SendField(x, st).st;
      |st'.sent| + st'.room == |st.sent| + st.room && st'.env == st.env && st'.inbound == st.inbound
  {
    hide Be;
  }

  lemma FieldConserves(f: Field, st: State)
    ensures
      var st' := PerformField(f, st).st;
      |st'.sent| + st'.room == |st.sent| + st.room
  {
    hide FromBe, ReadMany, SendField, Fits;
    SendConserves(f.name, st);
    match f.ty
    case VecOf(Scalar(w)) =>
      if f.role.Rx? && f.role.rx.Size? && f.role.rx.field in st.env && st.env[f.role.rx.field].Num? {
        ReadManyKeepsRoom(st.env[f.role.rx.field].v, w, f.name, st);
      }
    case Scalar(w) =>
      if f.role.Tx? && f.role.tx.Always? {
        SendConserves(f.name, st.(env := st.env[f.name := Num(w, f.role.tx.value)]));
      } else if f.role == Ack(RxThenTx) {
        SendConserves(f.name, ReceiveField(w, f.name, st).st);
      }
    case _ =>
  }

  /** What a failure tells: a wrong status, with the one wanted first, is the low half of the number that came
      in; a wrong echo, with the number sent first, is the number that came in. */
  lemma FieldReports(f: Field, st: State)
    requires WellTyped(f, st.env) && SendsReference(f) && PerformField(f, st).Failed?
    ensures
      var st' := PerformField(f, st).st;
      match PerformField(f, st).error
      case InvalidStatus(wanted, status) =>
        && f.ty.Scalar? && f.role == Rx(Status(wanted), f.role.getter) && status != wanted
        && exists v: u32 ::
             Fits(f.ty.width, v) && v % 0x1_0000 == status && st.inbound == Be(f.ty.width, v) + st'.inbound
      case InvalidEcho(expected, got) =>
        && f.ty.Scalar? && (f.role.Echo? || f.role == Ack(TxThenRx)) && Fits(f.ty.width, got)
        && expected == st.env[f.name].v != got && st.inbound == Be(f.ty.width, got) + st'.inbound
      case Io => st'.inbound == [] || st'.room == 0
      case _ => true
  {
    hide FromBe, Be, ReadMany;
    match f.ty
    case VecOf(_) =>
      ReadManyFailsHow(st.env[f.role.rx.field].v, f.ty.elem.width, f.name, st);
      ReadManyKeepsRoom(st.env[f.role.rx.field].v, f.ty.elem.width, f.name, st);
    case Scalar(w) =>
      var sent := SendField(f.name, st).st;
      if f.role.Rx? && ReadInt(w, st).Some? {
        ReadWhat(w, st);
      } else if ReadInt(w, sent).Some? {
        ReadWhat(w, sent);
      }
    case Ref(_) =>
  }

  /** A well-typed struct fails only with the errors the macro names or an I/O error, and panics exactly
      when the field that failed is an oversized `always`. */
  lemma {:induction false} FieldsFailHow(fields: seq<Field>, st: State) returns (at: nat)
    requires AllWellTyped(fields, st.env) && SendsReferences(fields) && PerformFields(fields, st).Failed?
    ensures at < |fields| && PerformFields(fields[..at], st).Done?
    ensures PerformFields(fields, st) == PerformField(fields[at], PerformFields(fields[..at], st).st)
    ensures PerformFields(fields, st).error != IllTyped
    ensures PerformFields(fields, st).error == Panic <==> Oversized(fields[at])
    decreases fields
  {
    hide PerformField, WellTyped, KeepsShape, Oversized;
    var f, rest := fields[0], fields[1..];
    if PerformField(f, st).Failed? {
      FieldFailsHow(f, st);
      at := 0;
    } else {
      var st1 := PerformField(f, st).st;
      FieldKeepsShape(f, st);
      TypesAreKept(rest, st.env, st1.env);
      var later := FieldsFailHow(rest, st1);
      at := later + 1;
      assert fields[..at][1..] == rest[..later];
    }
  }

  // ----- one command -----

  /** The attributes of `JumpDA`: command 0xD5 with echo, an address that is echoed, and a status that must be 0. */
  function JumpDa(): seq<Declared> {
    var none := Attributes(false, false, false, None, None, None, None, false);
    [Declared("addr", none.(echo := true), Scalar(W32)),
     Declared("status", none.(rx := true, status := Some(0)), Scalar(W16))]
  }

  function JumpDaFields(): seq<Field> {
    [Field("addr", FieldType.Echo, Scalar(W32)), Field("status", FieldType.Rx(RxType.Status(0), false), Scalar(W16))]
  }

  lemma JumpDaExpands()
    ensures Expand(Some(0xD5), false, true, JumpDa()) == Compile(Command(0xD5, true), JumpDaFields())
    ensures Compile(Command(0xD5, true), JumpDaFields()).Some?
  {
    hide CompileField;
    var d := JumpDa();
    assert d[1..] == [d[1]] && d[1..][1..] == [];
    var last := d[1..];
    assert RoleOf(d[0].attributes) == Ok(FieldType.Echo);
    assert RoleOf(last[0].attributes) == Ok(FieldType.Rx(RxType.Status(0), false));
    assert FieldsOf(last[1..]) == Some([]);
    assert FieldsOf(last) == Some([JumpDaFields()[1]] + []);
    assert FieldsOf(d) == Some([JumpDaFields()[0]] + ([JumpDaFields()[1]] + []));
    assert [JumpDaFields()[0]] + ([JumpDaFields()[1]] + []) == JumpDaFields();
    CompilesExactly(Command(0xD5, true), JumpDaFields());
  }

  /** What the macro makes of it, byte by byte: for every address and all that the peer may send, `run` succeeds
      if and only if the peer sends the command, the address, most significant byte first, and two zeros; it has
      then sent the command and the address. */
  lemma JumpDaSpeaks(addr: u32, inbound: seq<u8>, room: nat)
    requires room >= 5
    ensures Expand(Some(0xD5), false, true, JumpDa()).Some?
    ensures
      var st := State(map["addr" := Num(W32, addr), "status" := Num(W16, 0)], inbound, [], room);
      var end := OutcomeOf(Run(Expand(Some(0xD5), false, true, JumpDa()).value, None, st));
      && (end.Done? <==> [0xD5] + Be32(addr) + [0, 0] <= inbound)
      && (end.Done? ==> end.st.sent == [0xD5] + Be32(addr))
  {
    hide Run, Compile, Be32, Expand, JumpDa;
    var fields, kind := JumpDaFields(), Command(0xD5, true);
    var env: Env := map["addr" := Num(W32, addr), "status" := Num(W16, 0)];
    var st := State(env, inbound, [], room);
    var said := [0xD5] + Be32(addr) + [0, 0];
    JumpDaExpands();
    assert AllWellTyped(fields, env) && DistinctNames(fields) && AllSent(fields) == fields;
    var end := OutcomeOf(Run(Compile(kind, fields).value, None, st));
    if end.Done? {
      EmittedProgramSpeaks(kind, fields, None, st, end.st);
      JumpDaDialogue(addr, st, end.st);
      assert said + end.st.inbound == inbound;
    }
    if said <= inbound {
      var st' := State(env, inbound[|said|..], [0xD5] + Be32(addr), room - 5);
      JumpDaDialogue(addr, st, st');
      assert inbound == said + st'.inbound;
      EmittedProgramSpeaks(kind, fields, None, st, st');
    }
  }

  lemma JumpDaDialogue(addr: u32, st: State, st': State)
    requires st.env == map["addr" := Num(W32, addr), "status" := Num(W16, 0)] && st.sent == []
    ensures Dialogue(Command(0xD5, true), JumpDaFields(), st, st') <==>
      && st'.env == st.env && st.inbound == [0xD5] + Be32(addr) + [0, 0] + st'.inbound
      && st'.sent == [0xD5] + Be32(addr) && st.room == 5 + st'.room
  {
    hide Be32;
    var env, env' := st.env, st'.env;
    var fields := JumpDaFields();
    var f, g, last := fields[0], fields[1], fields[1..];
    assert last == [g] && last[1..] == [];
    assert env["addr" := env["addr"]] == env && env["status" := env["status"]] == env;
    assert Be(W16, 0) == [0, 0] && Be(W32, addr) == Be32(addr);
    assert FieldOk(f, env, env["addr"]) && FieldOk(g, env, env["status"]);
    if AllOk(fields, env, env') {
      assert env'["addr"] == env["addr"] && AllOk(last, env, env');
      assert FieldOk(g, env, env'["status"]) && env'["status"] == Num(W16, 0);
      assert AllOk(last[1..], env["status" := env'["status"]], env');
      assert env' == env;
    }
    if env' == env {
      assert AllOk(last[1..], env, env') && AllOk(last, env, env') && AllOk(fields, env, env');
      assert AllIn(last, env, env') == [0, 0] + [] && AllOut(last, env') == [] + [];
      assert AllIn(fields, env, env') == Be32(addr) + ([0, 0] + []);
      assert AllOut(fields, env') == Be32(addr) + ([] + []);
      assert [0xD5] + (Be32(addr) + ([0, 0] + [])) + st'.inbound == [0xD5] + Be32(addr) + [0, 0] + st'.inbound;
      assert [] + [0xD5] + (Be32(addr) + ([] + [])) == [0xD5] + Be32(addr);
    }
  }
}
