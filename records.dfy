/**
 * The check-in record: the body fields the `/registrar` handler accepts, the
 * three-field validation gate, and the record it builds with its defaults.
 */
module Records {

  import opened Options
  import opened JsValues
  import opened TimeCombiner

  /** The destructured request body. */
  datatype Body = Body(
    nombre: JsValue,
    cedula: JsValue,
    agencia: JsValue,
    horaEntrada: JsValue,
    horaSalida: JsValue,
    observaciones: JsValue)

  /** One stored row. */
  datatype Record = Record(
    nombre: JsValue,
    cedula: JsValue,
    agencia: JsValue,
    horaEntrada: Stamp,
    horaSalida: Stamp,
    observaciones: JsValue,
    fechaRegistro: string,
    ip: string)

  /**
   * What the handler reads from its environment while building a record: date
   * parsing (`None` where `new Date` throws), the clock at each of the two combiner calls, the ISO text of
   * `new Date()` and the caller's address.
   */
  datatype Context = Context(
    parse: JsValue -> Option<JsDate>,
    entryClock: Clock,
    exitClock: Clock,
    isoNow: string,
    ip: string)

  /** The validation gate: name, identity number and site must all be truthy. */
  predicate HasRequiredFields(b: Body)
  {
    !Falsy(b.nombre) && !Falsy(b.cedula) && !Falsy(b.agencia)
  }

  function OrEmpty(v: JsValue): JsValue
  {
    if Falsy(v) then Text("") else v
  }

  /** The value of `horaX ? combinarFechaConHoraActual(horaX) : ''`; `None` when the combiner throws. */
  function TimeColumn(v: JsValue, ctx: Context, now: Clock): Option<Stamp>
  {
    if Falsy(v) then Some(Blank) else Combine(v, ctx.parse, now)
  }

  /**
   * The record the handler stores for a body that passed the gate, or `None`
   * when formatting one of the two dates throws.
   */
  function BuildRecord(b: Body, ctx: Context): (r: Option<Record>)
    ensures r.None? <==>
              || (!Falsy(b.horaEntrada) && ctx.parse(b.horaEntrada).None?)
              || (!Falsy(b.horaSalida) && ctx.parse(b.horaSalida).None?)
    ensures r.Some? ==> r.value.nombre == b.nombre && r.value.cedula == b.cedula && r.value.agencia == b.agencia
    ensures r.Some? ==> (r.value.horaEntrada.Blank? <==> Falsy(b.horaEntrada))
    ensures r.Some? ==> (r.value.horaSalida.Blank? <==> Falsy(b.horaSalida))
    ensures r.Some? && !Falsy(b.horaEntrada) ==> Some(r.value.horaEntrada) == Combine(b.horaEntrada, ctx.parse, ctx.entryClock)
    ensures r.Some? && !Falsy(b.horaSalida) ==> Some(r.value.horaSalida) == Combine(b.horaSalida, ctx.parse, ctx.exitClock)
    ensures r.Some? && !Falsy(b.horaEntrada) && ctx.parse(b.horaEntrada).value.LocalDate? ==>
              r.value.horaEntrada.Shown? && r.value.horaEntrada.hour == ctx.entryClock.hours
              && r.value.horaEntrada.minute == ctx.entryClock.minutes && r.value.horaEntrada.second == ctx.entryClock.seconds
    ensures r.Some? && !Falsy(b.horaSalida) && ctx.parse(b.horaSalida).value.LocalDate? ==>
              r.value.horaSalida.Shown? && r.value.horaSalida.hour == ctx.exitClock.hours
              && r.value.horaSalida.minute == ctx.exitClock.minutes && r.value.horaSalida.second == ctx.exitClock.seconds
    ensures r.Some? && Falsy(b.observaciones) ==> r.value.observaciones == Text("")
    ensures r.Some? && !Falsy(b.observaciones) ==> r.value.observaciones == b.observaciones
    ensures r.Some? ==> r.value.fechaRegistro == ctx.isoNow && r.value.ip == ctx.ip
  {
    match TimeColumn(b.horaEntrada, ctx, ctx.entryClock)
    case None => None
    case Some(fechaHoraEntrada) =>
      match TimeColumn(b.horaSalida, ctx, ctx.exitClock)
      case None => None
      case Some(fechaHoraSalida) =>
        Some(Record(b.nombre, b.cedula, b.agencia, fechaHoraEntrada, fechaHoraSalida,
                    OrEmpty(b.observaciones), ctx.isoNow, ctx.ip))
  }
}
