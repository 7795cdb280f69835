/** The generator is a correct compiler, and the dialogue it produces is the declared one. */
module DeriveTheorems {
  import opened Bytes
  import opened Roles
  import opened Derive
  import opened DeriveSemantics

  // ----- compiler correctness -----

  lemma {:induction false} RunAppend(a: seq<Op>, b: seq<Op>, tmp: Option<Value>, st: State)
    ensures Run(a + b, tmp, st) == Then(Run(a, tmp, st), b)
    decreases a
  {
    hide Exec;
    if a == [] {
      assert a + b == b;
    } else {
      assert (a + b)[1..] == a[1..] + b;
      match Exec(a[0], tmp, st)
      case Next(tmp1, st1) => RunAppend(a[1..], b, tmp1, st1);
      case Stop(_, _) =>
    }
  }

  /** One operation, then the rest. */
  lemma RunCons(op: Op, rest: seq<Op>, tmp: Option<Value>, st: State)
    ensures Run([op] + rest, tmp, st) == Then(Exec(op, tmp, st), rest)
  {
    hide Exec;
    assert ([op] + rest)[1..] == rest;
  }

  lemma RunOne(op: Op, tmp: Option<Value>, st: State)
    ensures Run([op], tmp, st) == Exec(op, tmp, st)
  {
    hide Exec;
    assert [op][1..] == [];
  }

  lemma RunTwo(a: Op, b: Op, tmp: Option<Value>, st: State)
    ensures Run([a, b], tmp, st) == Then(Exec(a, tmp, st), [b])
    ensures forall t, s :: Run([b], t, s) == Exec(b, t, s)
  {
    hide Exec;
    assert [a, b][1..] == [b];
    assert [b][1..] == [];
  }

  lemma RunThree(a: Op, b: Op, c: Op, tmp: Option<Value>, st: State)
    ensures Run([a, b, c], tmp, st) == Then(Exec(a, tmp, st), [b, c])
  {
    hide Exec;
    assert [a, b, c][1..] == [b, c];
  }

  lemma RunFour(a: Op, b: Op, c: Op, d: Op, tmp: Option<Value>, st: State)
    ensures Run([a, b, c, d], tmp, st) == Then(Exec(a, tmp, st), [b, c, d])
  {
    hide Exec;
    assert [a, b, c, d][1..] == [b, c, d];
  }

  lemma LoadAndSend(x: string, tmp: Option<Value>, st: State)
    requires x in st.env
    ensures OutcomeOf(Run([Load(SelfField(x)), Send], tmp, st)) == SendField(x, st)
  {
    hide Run, WriteValue;
    RunTwo(Load(SelfField(x)), Send, tmp, st);
  }

  lemma EchoedIsConfirmed(x: string, w: Width, tmp: Option<Value>, st: State)
    requires NumberOf(st.env, x, w)
    ensures OutcomeOf(Run(Echoed(x, w), tmp, st)) == SendAndConfirm(w, x, st)
  {
    hide Run, Be, FromBe;
    var own := SelfField(x);
    assert Echoed(x, w) == [Load(own)] + [Send, Receive(w), CheckEcho(own), Store(x)];
    RunCons(Load(own), [Send, Receive(w), CheckEcho(own), Store(x)], tmp, st);
    var loaded := Some(st.env[x]);
    RunFour(Send, Receive(w), CheckEcho(own), Store(x), loaded, st);
    match SendField(x, st)
    case Failed(_, _) =>
    case Done(st1) =>
      RunThree(Receive(w), CheckEcho(own), Store(x), loaded, st1);
      match ReadInt(w, st1)
      case None =>
      case Some((v, st2)) =>
        RunTwo(CheckEcho(own), Store(x), Some(Num(w, v)), st2);
        if v == st.env[x].v {
          assert st2.env[x := Num(w, v)] == st2.env;
        }
  }

  /** One field's code does what the field's role says, whatever `tmp` held before. */
  lemma FieldIsCompiled(f: Field, tmp: Option<Value>, st: State)
    requires WellTyped(f, st.env) && SendsReference(f)
    ensures CompileField(f).Some?
    ensures OutcomeOf(Run(CompileField(f).value, tmp, st)) == PerformField(f, st)
  {
    hide Run, Be, FromBe, WriteAll, ReadMany;
    var x := f.name;
    match f.ty
    case Ref(_) => LoadAndSend(x, tmp, st);
    case VecOf(e) =>
      assert Stripped(f.ty) == Stripped(e) == e;
      RunOne(RepeatPush(f.role.rx.field, e.width, x), tmp, st);
    case Scalar(w) =>
      ScalarIsCompiled(f, w, tmp, st);
  }

  lemma ScalarIsCompiled(f: Field, w: Width, tmp: Option<Value>, st: State)
    requires WellTyped(f, st.env) && f.ty == Scalar(w)
    ensures CompileField(f).Some?
    ensures OutcomeOf(Run(CompileField(f).value, tmp, st)) == PerformScalar(f.role, w, f.name, st)
  {
    hide Run, Be, FromBe, WriteAll, SendAndConfirm;
    var x := f.name;
    match f.role
    case Tx(Current) => LoadAndSend(x, tmp, st);
    case Tx(Always(v)) =>
      RunThree(SetAlways(x, v), Load(SelfField(x)), Send, tmp, st);
      if Fits(w, v) {
        LoadAndSend(x, tmp, st.(env := st.env[x := Num(w, v)]));
      }
    case Rx(Value, _) => RunTwo(Receive(w), Store(x), tmp, st);
    case Rx(Status(s), _) =>
      RunThree(Receive(w), CheckStatus(s), Store(x), tmp, st);
      if ReadInt(w, st).Some? {
        var (v, st1) := ReadInt(w, st).value;
        RunTwo(CheckStatus(s), Store(x), Some(Num(w, v)), st1);
      }
    case Echo => EchoedIsConfirmed(x, w, tmp, st);
    case Ack(TxThenRx) => EchoedIsConfirmed(x, w, tmp, st);
    case Ack(RxThenTx) =>
      RunFour(Receive(w), Store(x), Load(SelfField(x)), Send, tmp, st);
      match ReadInt(w, st)
      case None =>
      case Some((v, st1)) =>
        var received := Some(Num(w, v));
        RunThree(Store(x), Load(SelfField(x)), Send, received, st1);
        LoadAndSend(x, received, st1.(env := st1.env[x := Num(w, v)]));
  }

  // ----- types are kept -----

  predicate SameShape(a: Value, b: Value) {
    match a
    case Num(w, v) => b.Num? && b.width == w && (Fits(w, v) ==> Fits(w, b.v))
    case Nums(_) => b.Nums?
    case Raw(_) => b.Raw?
  }

  ghost predicate KeepsShape(env: Env, env': Env) {
    forall x :: x in env ==> x in env' && SameShape(env[x], env'[x])
  }

  lemma ReadManyKeepsShape(count: nat, w: Width, to: string, st: State)
    ensures
      var o := ReadMany(count, w, to, st);
      KeepsShape(st.env, o.st.env)
  {
    hide FromBe;
    if count > 0 && ReadInt(w, st).Some? {
      var (v, st1) := ReadInt(w, st).value;
      if to in st1.env && st1.env[to].Nums? {
        ReadManyKeepsShape(count - 1, w, to, st1.(env := st1.env[to := Nums(st1.env[to].vs + [v])]));
      }
    }
  }

  lemma FieldKeepsShape(f: Field, st: State)
    requires WellTyped(f, st.env)
    ensures KeepsShape(st.env, PerformField(f, st).st.env)
  {
    hide FromBe, Be, ReadMany;
    match f.ty
    case VecOf(e) => ReadManyKeepsShape(st.env[f.role.rx.field].v, e.width, f.name, st);
    case _ =>
  }

  lemma TypesAreKept(fields: seq<Field>, env: Env, env': Env)
    requires AllWellTyped(fields, env) && KeepsShape(env, env')
    ensures AllWellTyped(fields, env')
  {
  }

  lemma {:induction false} FieldsAreCompiled(fields: seq<Field>, tmp: Option<Value>, st: State)
    requires AllWellTyped(fields, st.env) && SendsReferences(fields)
    ensures CompileFields(fields).Some?
    ensures OutcomeOf(Run(CompileFields(fields).value, tmp, st)) == PerformFields(fields, st)
    decreases fields
  {
    hide Run, CompileField, PerformField, WellTyped, KeepsShape;
    if fields == [] {
      RunNothing(tmp, st);
    } else {
      var f, rest := fields[0], fields[1..];
      FieldIsCompiled(f, tmp, st);
      FieldsAreCompiled(rest, tmp, st);
      RunAppend(CompileField(f).value, CompileFields(rest).value, tmp, st);
      match Run(CompileField(f).value, tmp, st)
      case Stop(_, _) =>
      case Next(tmp1, st1) =>
        FieldKeepsShape(f, st);
        TypesAreKept(rest, st.env, st1.env);
        FieldsAreCompiled(rest, tmp1, st1);
    }
  }

  lemma RunNothing(tmp: Option<Value>, st: State)
    ensures Run([], tmp, st) == Next(tmp, st)
  {
  }

  lemma CommandIsCompiled(kind: ProtocolKind, tmp: Option<Value>, st: State)
    ensures OutcomeOf(Run(CompileCommand(kind), tmp, st)) == PerformCommand(kind, st)
    ensures PerformCommand(kind, st).st.env == st.env
  {
    hide Run;
    match kind
    case Naked => RunNothing(tmp, st);
    case Command(c, echo) =>
      var place := Local(c);
      if !echo {
        RunTwo(Load(place), Send, tmp, st);
      } else {
        RunFour(Load(place), Send, Receive(W8), CheckEcho(place), tmp, st);
        RunThree(Send, Receive(W8), CheckEcho(place), Some(Num(W8, c)), st);
        if WriteAll(st, [c]).Done? {
          var st1 := WriteAll(st, [c]).st;
          RunTwo(Receive(W8), CheckEcho(place), Some(Num(W8, c)), st1);
        }
      }
  }

  /** The generator is a correct compiler: for every well-typed struct whose references are sent, and every
      inbound byte stream, the emitted program sends, consumes, stores and succeeds or fails exactly as the
      roles say. */
  lemma CompilerIsCorrect(kind: ProtocolKind, fields: seq<Field>, tmp: Option<Value>, st: State)
    requires AllWellTyped(fields, st.env) && SendsReferences(fields)
    ensures Compile(kind, fields).Some?
    ensures OutcomeOf(Run(Compile(kind, fields).value, tmp, st)) == Perform(kind, fields, st)
  {
    hide Run, CompileFields, CompileCommand, PerformCommand, PerformFields, AllWellTyped, SendsReferences;
    FieldsAreCompiled(fields, tmp, st);
    CommandIsCompiled(kind, tmp, st);
    RunAppend(CompileCommand(kind), CompileFields(fields).value, tmp, st);
    match Run(CompileCommand(kind), tmp, st)
    case Stop(_, _) =>
    case Next(tmp1, st1) => FieldsAreCompiled(fields, tmp1, st1);
  }

  // ----- references -----

  /** The field as the generator treats it: a reference is sent, whatever it asked for. */
  function Sent(f: Field): Field {
    if f.ty.Ref? then f.(role := Tx(Current)) else f
  }

  function AllSent(fields: seq<Field>): (r: seq<Field>)
    ensures |r| == |fields| && forall i :: 0 <= i < |fields| ==> r[i] == Sent(fields[i])
  {
    if fields == [] then [] else [Sent(fields[0])] + AllSent(fields[1..])
  }

  /** Two structs that differ only in the roles of their references compile to the same program. */
  lemma {:induction false} ReferenceRolesAreIgnored(fields: seq<Field>, env: Env)
    ensures CompileFields(AllSent(fields)) == CompileFields(fields)
    ensures AllWellTyped(fields, env) ==> AllWellTyped(AllSent(fields), env)
    ensures SendsReferences(AllSent(fields)) && (SendsReferences(fields) ==> AllSent(fields) == fields)
  {
    if fields != [] {
      assert CompileField(Sent(fields[0])) == CompileField(fields[0]);
      ReferenceRolesAreIgnored(fields[1..], env);
      assert AllSent(fields)[1..] == AllSent(fields[1..]);
    }
  }

  /** So what any emitted program does is what the roles say of the struct with its references sent. */
  lemma EmittedMeans(kind: ProtocolKind, fields: seq<Field>, tmp: Option<Value>, st: State)
    requires AllWellTyped(fields, st.env)
    ensures Compile(kind, fields).Some?
    ensures OutcomeOf(Run(Compile(kind, fields).value, tmp, st)) == Perform(kind, AllSent(fields), st)
  {
    hide Run, CompileFields, Perform, AllWellTyped, SendsReferences;
    ReferenceRolesAreIgnored(fields, st.env);
    CompilerIsCorrect(kind, AllSent(fields), tmp, st);
  }

  lemma {:induction false} MisusedReferenceFails(fields: seq<Field>, st: State)
    requires !SendsReferences(fields)
    ensures PerformFields(fields, st).Failed?
    decreases fields
  {
    hide ReadMany, PerformScalar, WriteValue;
    var i :| 0 <= i < |fields| && !SendsReference(fields[i]);
    if i > 0 && PerformField(fields[0], st).Done? {
      assert !SendsReference(fields[1..][i - 1]);
      MisusedReferenceFails(fields[1..], PerformField(fields[0], st).st);
    }
  }

  /** Exactly when: an emitted program that runs through follows the roles if and only if every reference
      asks to be sent. */
  lemma RolesAreFollowedExactly(kind: ProtocolKind, fields: seq<Field>, tmp: Option<Value>, st: State)
    requires AllWellTyped(fields, st.env) && Compile(kind, fields).Some?
    requires OutcomeOf(Run(Compile(kind, fields).value, tmp, st)).Done?
    ensures OutcomeOf(Run(Compile(kind, fields).value, tmp, st)) == Perform(kind, fields, st)
       <==> SendsReferences(fields)
  {
    hide Run, Compile, PerformCommand, PerformFields, AllWellTyped, SendsReferences;
    if SendsReferences(fields) {
      CompilerIsCorrect(kind, fields, tmp, st);
    } else if PerformCommand(kind, st).Done? {
      MisusedReferenceFails(fields, PerformCommand(kind, st).st);
    }
  }

  /** A slice that asks to be received is accepted, and sent. */
  lemma ReceivedSliceIsSent()
    ensures
      var fields := [Field("payload", FieldType.Rx(RxType.Value, false), Ref(ByteSlice))];
      var st := State(map["payload" := Raw([7])], [], [], 1);
      && AllWellTyped(fields, st.env) && Compile(Naked, fields).Some?
      && OutcomeOf(Run(Compile(Naked, fields).value, None, st)) == Done(st.(sent := [7], room := 0))
      && Perform(Naked, fields, st).Failed?
  {
    hide Run;
    var f := Field("payload", FieldType.Rx(RxType.Value, false), Ref(ByteSlice));
    var st := State(map["payload" := Raw([7])], [], [], 1);
    assert [f][1..] == [] && CompileFields([]) == Some([]);
    var ops := [Load(SelfField("payload")), Send];
    assert CompileField(f) == Some(ops) && [] + (ops + []) == ops;
    assert Compile(Naked, [f]) == Some(ops);
    LoadAndSend("payload", None, st);
    assert [] + [7] == [7];
  }

  // ----- where the generator panics -----

  /** The generator panics at compile time exactly on a field that is not one of these. */
  predicate Encodable(f: Field) {
    match f.ty
    case Ref(t) => t.Scalar? || t.ByteSlice?
    case Scalar(_) => true
    case VecOf(e) => f.role.Tx? || (f.role.Rx? && f.role.rx.Size? && Stripped(e).Scalar?)
    case _ => false
  }

  lemma {:induction false} CompilesExactly(kind: ProtocolKind, fields: seq<Field>)
    ensures Compile(kind, fields).Some? <==> forall i :: 0 <= i < |fields| ==> Encodable(fields[i])
  {
    if fields != [] {
      CompilesExactly(kind, fields[1..]);
      StrippedIsStripped(fields[0].ty);
      assert forall i :: 0 < i < |fields| ==> fields[i] == fields[1..][i - 1];
      assert CompileField(fields[0]).Some? <==> Encodable(fields[0]);
    }
  }

  // ----- the whole macro, from the attributes -----

  /** A field as it is written. */
  datatype Declared = Declared(name: string, attributes: Attributes, ty: Ty)

  /** `da_legacy` from the attributes on; `None` where it reports an error or panics. */
  function Expand(command: Option<u8>, naked: bool, echo: bool, declared: seq<Declared>): Option<seq<Op>> {
    match KindOf(command, naked, echo)
    case Err(_) => None
    case Ok(kind) =>
      var fields :- FieldsOf(declared);
      Compile(kind, fields)
  }

  function FieldsOf(declared: seq<Declared>): Option<seq<Field>> {
    if declared == [] then Some([])
    else
      var d := declared[0];
      match RoleOf(d.attributes)
      case Err(_) => None
      case Ok(role) =>
        var rest :- FieldsOf(declared[1..]);
        Some([Field(d.name, role, d.ty)] + rest)
  }

  /** One direction, no attribute that clashes with it, and a type that can go that way. */
  predicate Expandable(d: Declared) {
    var a := d.attributes;
    && Directions(a) == 1
    && (a.tx ==> a.status.None? && a.size.None? && !a.getter)
    && (a.rx ==> a.status.None? || a.size.None?)
    && match d.ty
       case Scalar(_) => true
       case Ref(t) => t.Scalar? || t.ByteSlice?
       case VecOf(e) => a.tx || (a.rx && a.size.Some? && Stripped(e).Scalar?)
       case _ => false
  }

  /** The macro accepts a struct if and only if it is a command or naked, and not both, and each field can be
      expanded by itself. */
  lemma ExpandsExactly(command: Option<u8>, naked: bool, echo: bool, declared: seq<Declared>)
    ensures Expand(command, naked, echo, declared).Some?
       <==> (command.Some? <==> !naked) && forall i :: 0 <= i < |declared| ==> Expandable(declared[i])
  {
    hide RoleOf, Compile, Encodable, Expandable, CompileField;
    FieldsOfExactly(declared);
    var fields := FieldsOf(declared);
    if fields.Some? && KindOf(command, naked, echo).Ok? {
      CompilesExactly(KindOf(command, naked, echo).value, fields.value);
    }
    forall i | 0 <= i < |declared|
      ensures Expandable(declared[i]) <==> Acceptable(declared[i])
    {
      AcceptableIs(declared[i]);
    }
  }

  predicate Acceptable(d: Declared) {
    RoleOf(d.attributes).Ok? && Encodable(Field(d.name, RoleOf(d.attributes).value, d.ty))
  }

  lemma AcceptableIs(d: Declared)
    ensures Expandable(d) <==> Acceptable(d)
  {
    RoleIsExact(d.attributes);
  }

  lemma {:induction false} FieldsOfExactly(declared: seq<Declared>)
    ensures FieldsOf(declared).Some? <==> forall i :: 0 <= i < |declared| ==> RoleOf(declared[i].attributes).Ok?
    ensures FieldsOf(declared).Some? ==>
      var fields := FieldsOf(declared).value;
      && |fields| == |declared|
      && forall i :: 0 <= i < |declared| ==>
           fields[i] == Field(declared[i].name, RoleOf(declared[i].attributes).value, declared[i].ty)
  {
    hide RoleOf;
    if declared != [] {
      FieldsOfExactly(declared[1..]);
      assert forall i :: 0 < i < |declared| ==> declared[i] == declared[1..][i - 1];
    }
  }

  lemma StrippedIsStripped(t: Ty)
    ensures !Stripped(t).VecOf?
  {
  }
}
