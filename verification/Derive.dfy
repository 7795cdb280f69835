/** The code generator: field roles compiled to a straight-line program over one variable `tmp` and the
    fields of the struct. */
module Derive {
  import opened Bytes
  import opened Roles

  // ----- types -----

  datatype Width = W8 | W16 | W32

  /** Field types as the generator sees them: the last path segment, or a reference's target. */
  datatype Ty =
    | Scalar(width: Width)
    | VecOf(elem: Ty)
    | ByteSlice
    | Ref(target: Ty)
    | OtherPath
    | OtherType

  datatype Field = Field(name: string, role: FieldType, ty: Ty)

  datatype CodegenType = Int(width: Width) | Vec | Slice

  /** Lookup of a type by its name; the generator panics where there is none. */
  function CodegenTypeOf(t: Ty): Option<CodegenType> {
    match t
    case Scalar(w) => Some(CodegenType.Int(w))
    case VecOf(_) => Some(CodegenType.Vec)
    case ByteSlice => Some(CodegenType.Slice)
    case _ => None
  }

  /** A reference target is looked up by its whole text, so `Vec<..>` with its argument is not found. */
  function TargetTypeOf(t: Ty): Option<CodegenType> {
    if t.VecOf? then None else CodegenTypeOf(t)
  }

  /** The text of a type with every `Vec<` and `>` removed. */
  function Stripped(t: Ty): Ty {
    match t
    case VecOf(e) => Stripped(e)
    case _ => t
  }

  // ----- programs -----

  /** `SelfField(x)` is `self.x`; `Local(v)` is the local variable holding the command byte. */
  datatype Place = SelfField(name: string) | Local(value: u8)

  /** `RepeatPush` is the loop that receives `count` values and appends each. */
  datatype Op =
    | Load(from: Place)
    | Store(to: string)
    | SetAlways(to: string, value: u32)
    | CheckStatus(status: u16)
    | Send
    | Receive(width: Width)
    | CheckEcho(expected: Place)
    | RepeatPush(count: string, width: Width, to: string)

  // ----- the generator's builder -----

  class Codegen {
    const ty: CodegenType
    const place: Place
    var tokens: seq<Op>

    constructor (ty: CodegenType, place: Place)
      ensures this.ty == ty && this.place == place && tokens == []
    {
      this.ty, this.place, tokens := ty, place, [];
    }

    method EmitLoad()
      modifies this
      ensures tokens == old(tokens) + [Load(place)]
    {
      tokens := tokens + [Load(place)];
    }

    method EmitStore()
      requires place.SelfField?
      modifies this
      ensures tokens == old(tokens) + [Store(place.name)]
    {
      tokens := tokens + [Store(place.name)];
    }

    method EmitStatus(status: u16)
      modifies this
      ensures tokens == old(tokens) + [CheckStatus(status)]
    {
      tokens := tokens + [CheckStatus(status)];
    }

    method EmitTx()
      modifies this
      ensures tokens == old(tokens) + [Send]
    {
      tokens := tokens + [Send];
    }

    /** Only integers can be received; the source panics on the others. */
    method EmitRx() returns (ok: bool)
      modifies this
      ensures ok <==> ty.Int?
      ensures tokens == if ok then old(tokens) + [Receive(ty.width)] else old(tokens)
    {
      ok := ty.Int?;
      if ok {
        tokens := tokens + [Receive(ty.width)];
      }
    }

    method EmitEchoStatus()
      modifies this
      ensures tokens == old(tokens) + [CheckEcho(place)]
    {
      tokens := tokens + [CheckEcho(place)];
    }

    method Push(code: seq<Op>)
      modifies this
      ensures tokens == old(tokens) + code
    {
      tokens := tokens + code;
    }
  }

  // ----- what the generator emits -----

  function Echoed(x: string, w: Width): seq<Op> {
    [Load(SelfField(x)), Send, Receive(w), CheckEcho(SelfField(x)), Store(x)]
  }

  /** The code of one field; `None` where the generator panics. */
  function CompileField(f: Field): Option<seq<Op>> {
    var x := f.name;
    if f.ty.Ref? then
      var _ :- TargetTypeOf(f.ty.target);
      Some([Load(SelfField(x)), Send])
    else if f.ty.ByteSlice? || f.ty.OtherType? then None
    else
      var ty :- CodegenTypeOf(f.ty);
      match f.role
      case Tx(Always(v)) => Some([SetAlways(x, v), Load(SelfField(x)), Send])
      case Tx(Current) => Some([Load(SelfField(x)), Send])
      case Rx(Size(n), _) =>
        var inner :- CodegenTypeOf(Stripped(f.ty));
        if inner.Int? then Some([RepeatPush(n, inner.width, x)]) else None
      case Rx(Status(s), _) => if ty.Int? then Some([Receive(ty.width), CheckStatus(s), Store(x)]) else None
      case Rx(Value, _) => if ty.Int? then Some([Receive(ty.width), Store(x)]) else None
      case Echo => if ty.Int? then Some(Echoed(x, ty.width)) else None
      case Ack(TxThenRx) => if ty.Int? then Some(Echoed(x, ty.width)) else None
      case Ack(RxThenTx) => if ty.Int? then Some([Receive(ty.width), Store(x), Load(SelfField(x)), Send]) else None
  }

  function CompileFields(fields: seq<Field>): Option<seq<Op>> {
    if fields == [] then Some([])
    else
      var first :- CompileField(fields[0]);
      var rest :- CompileFields(fields[1..]);
      Some(first + rest)
  }

  function CompileCommand(kind: ProtocolKind): seq<Op> {
    match kind
    case Naked => []
    case Command(c, false) => [Load(Local(c)), Send]
    case Command(c, true) => [Load(Local(c)), Send, Receive(W8), CheckEcho(Local(c))]
  }

  function Compile(kind: ProtocolKind, fields: seq<Field>): Option<seq<Op>> {
    var body :- CompileFields(fields);
    Some(CompileCommand(kind) + body)
  }

  /** The generator as written: builder calls in order. */
  method GenerateField(f: Field) returns (code: Option<seq<Op>>)
    ensures code == CompileField(f)
  {
    var place := SelfField(f.name);
    if f.ty.Ref? {
      var ty := TargetTypeOf(f.ty.target);
      if ty.None? {
        return None;
      }
      var gen := new Codegen(ty.value, place);
      gen.EmitLoad();
      gen.EmitTx();
      assert gen.tokens == CompileField(f).value;
      return Some(gen.tokens);
    }
    var ty := if f.ty.ByteSlice? then None else CodegenTypeOf(f.ty);
    if ty.None? {
      return None;
    }
    var gen := new Codegen(ty.value, place);
    match f.role {
      case Tx(tx) =>
        if tx.Always? {
          gen.Push([SetAlways(f.name, tx.value)]);
        }
        gen.EmitLoad();
        gen.EmitTx();
      case Rx(rx, _) =>
        if rx.Size? {
          var inner := CodegenTypeOf(Stripped(f.ty));
          if inner.None? {
            return None;
          }
          if !inner.value.Int? {
            return None;
          }
          gen.Push([RepeatPush(rx.field, inner.value.width, f.name)]);
        } else {
          var ok := gen.EmitRx();
          if !ok {
            return None;
          }
        }
        if rx.Status? {
          gen.EmitStatus(rx.status);
        }
        if !rx.Size? {
          gen.EmitStore();
        }
      case Echo =>
        var ok := GenerateEcho(gen);
        if !ok {
          return None;
        }
      case Ack(ack) =>
        if ack.TxThenRx? {
          var ok := GenerateEcho(gen);
          if !ok {
            return None;
          }
        } else {
          var ok := gen.EmitRx();
          if !ok {
            return None;
          }
          gen.EmitStore();
          gen.EmitLoad();
          gen.EmitTx();
        }
    }
    assert gen.tokens == CompileField(f).value;
    code := Some(gen.tokens);
  }

  method GenerateEcho(gen: Codegen) returns (ok: bool)
    requires gen.place.SelfField? && gen.tokens == []
    modifies gen
    ensures ok <==> gen.ty.Int?
    ensures ok ==> gen.tokens == Echoed(gen.place.name, gen.ty.width)
  {
    gen.EmitLoad();
    gen.EmitTx();
    ok := gen.EmitRx();
    if ok {
      gen.EmitEchoStatus();
      gen.EmitStore();
    }
  }

  method Generate(kind: ProtocolKind, fields: seq<Field>) returns (code: Option<seq<Op>>)
    ensures code == Compile(kind, fields)
  {
    hide CompileField;
    var body := [];
    assert fields[0..] == fields;
    assert CompileFields(fields).Some? ==> [] + CompileFields(fields).value == CompileFields(fields).value;
    for i := 0 to |fields|
      invariant CompileFields(fields) == (match CompileFields(fields[i..])
                                          case None => None
                                          case Some(rest) => Some(body + rest))
    {
      var part := GenerateField(fields[i]);
      assert fields[i..][1..] == fields[i + 1..];
      if part.None? {
        return None;
      }
      if CompileFields(fields[i + 1..]).Some? {
        ConcatAssoc(body, part.value, CompileFields(fields[i + 1..]).value);
      }
      body := body + part.value;
    }
    assert body + [] == body;
    var command := [];
    if kind.Command? {
      var gen := new Codegen(CodegenType.Int(W8), Local(kind.command));
      gen.EmitLoad();
      gen.EmitTx();
      if kind.echo {
        var _ := gen.EmitRx();
        gen.EmitEchoStatus();
      }
      command := gen.tokens;
    }
    assert command == CompileCommand(kind);
    code := Some(command + body);
  }
}
