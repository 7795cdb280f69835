/** The derive macro's field attributes, and the role each accepted record gives its field. */
module Roles {
  import opened Bytes

  datatype Result<+T, +E> = Ok(value: T) | Err(error: E)

  datatype AckType = RxThenTx | TxThenRx

  /** The attributes as written on a field; a flag is present or absent. */
  datatype Attributes = Attributes(
    tx: bool, rx: bool, echo: bool, status: Option<u16>, size: Option<string>, ack: Option<AckType>,
    always: Option<u32>, getter: bool)

  datatype RxType = Status(status: u16) | Size(field: string) | Value

  datatype TxType = Always(value: u32) | Current

  datatype FieldType = Tx(tx: TxType) | Rx(rx: RxType, getter: bool) | Echo | Ack(ack: AckType)

  datatype RoleError = AllOfThem | Dummy | Overlap | TxStatus | TxSize | TxGetter | StatusAndSize

  function One(b: bool): nat {
    if b then 1 else 0
  }

  /** How many of the four directions a record names. */
  function Directions(a: Attributes): nat {
    One(a.tx) + One(a.rx) + One(a.echo) + One(a.ack.Some?)
  }

  function RoleOf(a: Attributes): Result<FieldType, RoleError> {
    if a.tx && a.rx && a.echo && a.ack.Some? then Err(AllOfThem)
    else if !a.tx && !a.rx && !a.echo && a.ack.None? then Err(Dummy)
    else if Directions(a) != 1 then Err(Overlap)
    else if a.tx && a.status.Some? then Err(TxStatus)
    else if a.tx && a.size.Some? then Err(TxSize)
    else if a.tx && a.getter then Err(TxGetter)
    else if a.tx then Ok(Tx(if a.always.Some? then Always(a.always.value) else Current))
    else if a.rx then
      if a.status.Some? && a.size.Some? then Err(StatusAndSize)
      else Ok(Rx(if a.status.Some? then Status(a.status.value)
                 else if a.size.Some? then Size(a.size.value) else Value, a.getter))
    else if a.echo then Ok(Echo)
    else Ok(Ack(a.ack.value))
  }

  /** The attributes a role is written with; those the conversion ignores are left out. */
  function Written(r: FieldType): Attributes {
    var none := Attributes(false, false, false, None, None, None, None, false);
    match r
    case Tx(Always(v)) => none.(tx := true, always := Some(v))
    case Tx(Current) => none.(tx := true)
    case Rx(Status(s), g) => none.(rx := true, status := Some(s), getter := g)
    case Rx(Size(f), g) => none.(rx := true, size := Some(f), getter := g)
    case Rx(Value, g) => none.(rx := true, getter := g)
    case Echo => none.(echo := true)
    case Ack(t) => none.(ack := Some(t))
  }

  /** Every role can be written down. */
  lemma WrittenRoleIsRead(r: FieldType)
    ensures RoleOf(Written(r)) == Ok(r)
  {
  }

  /** A record is accepted exactly when it names one direction and no attribute that clashes with it;
      what else it carries (a status on an echo, an `always` on an rx) is ignored. */
  lemma RoleIsExact(a: Attributes)
    ensures RoleOf(a).Ok? <==>
      && Directions(a) == 1
      && (a.tx ==> a.status.None? && a.size.None? && !a.getter)
      && (a.rx ==> a.status.None? || a.size.None?)
    ensures RoleOf(a).Ok? ==>
      RoleOf(a) == RoleOf(a.(always := if a.tx then a.always else None,
                             status := if a.rx then a.status else None,
                             size := if a.rx then a.size else None,
                             getter := a.rx && a.getter))
    ensures RoleOf(a).Ok? ==>
      && (a.tx <==> RoleOf(a).value.Tx?)
      && (a.rx <==> RoleOf(a).value.Rx?)
      && (a.echo <==> RoleOf(a).value.Echo?)
  {
  }

  /** What each rejection says of the record. */
  lemma RejectionMeans(a: Attributes)
    requires RoleOf(a).Err?
    ensures match RoleOf(a).error
            case AllOfThem => Directions(a) == 4
            case Dummy => Directions(a) == 0
            case Overlap => Directions(a) == 2 || Directions(a) == 3
            case TxStatus => a.tx && a.status.Some?
            case TxSize => a.tx && a.size.Some?
            case TxGetter => a.tx && a.getter
            case StatusAndSize => a.rx && a.status.Some? && a.size.Some?
  {
  }

  /** The attributes on the struct. */
  datatype ProtocolKind = Command(command: u8, echo: bool) | Naked

  datatype KindError = Both | Neither

  /** A struct is a command or naked, and not both. */
  function KindOf(command: Option<u8>, naked: bool, echo: bool): (r: Result<ProtocolKind, KindError>)
    ensures r.Ok? <==> (command.Some? <==> !naked)
    ensures r == Err(Both) ==> command.Some? && naked
    ensures r.Ok? ==> (if command.Some? then r.value == Command(command.value, echo) else r.value == Naked)
  {
    if command.Some? && naked then Err(Both)
    else if command.None? && !naked then Err(Neither)
    else Ok(match command case Some(v) => Command(v, echo) case None => Naked)
  }
}
