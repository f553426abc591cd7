/** The `DateTimeTuple` record and the `datetime_tuple` helper that builds it
    from keyword arguments, three of which are required. */
module DateTimeTuples {
  import opened Outcomes

  /** The eight calendar fields, in the order of the record.  Year is the
      full year (2024, not 24); no field is range-checked. */
  datatype DateTimeTuple = DateTimeTuple(
    year: int, month: int, day: int, weekday: int,
    hour: int, minute: int, second: int, millisecond: int)

  /** The keyword arguments of one call of `datetime_tuple`: None stands for
      an argument the caller left out. */
  datatype Arguments = Arguments(
    year: Option<int> := None, month: Option<int> := None, day: Option<int> := None,
    weekday: Option<int> := None, hour: Option<int> := None, minute: Option<int> := None,
    second: Option<int> := None, millisecond: Option<int> := None)

  /** The arguments that name every field of t. */
  function ArgumentsOf(t: DateTimeTuple): Arguments {
    Arguments(Some(t.year), Some(t.month), Some(t.day), Some(t.weekday),
              Some(t.hour), Some(t.minute), Some(t.second), Some(t.millisecond))
  }

  /** The arguments with every optional argument left out replaced by an
      explicit 0. */
  function WithDefaults(args: Arguments): Arguments {
    args.(weekday := Some(args.weekday.GetOr(0)), hour := Some(args.hour.GetOr(0)),
          minute := Some(args.minute.GetOr(0)), second := Some(args.second.GetOr(0)),
          millisecond := Some(args.millisecond.GetOr(0)))
  }

  /** A call of `datetime_tuple`: binding raises TypeError exactly when year,
      month or day is missing. */
  function DatetimeTuple(args: Arguments): (r: Result<DateTimeTuple>)
    ensures r.Err? <==> args.year.None? || args.month.None? || args.day.None?
    ensures r.Err? ==> r.error == TypeError
  {
    match (args.year, args.month, args.day)
    case (Some(year), Some(month), Some(day)) =>
      Ok(DateTimeTuple(year, month, day, args.weekday.GetOr(0), args.hour.GetOr(0),
                       args.minute.GetOr(0), args.second.GetOr(0), args.millisecond.GetOr(0)))
    case _ => Err(TypeError)
  }

  /** Naming every field builds exactly that tuple, and a successful call
      builds a tuple that names back the arguments it was given. */
  lemma ArgumentsRoundTrip(t: DateTimeTuple, args: Arguments)
    ensures DatetimeTuple(ArgumentsOf(t)) == Ok(t)
    ensures DatetimeTuple(args).Ok? ==> ArgumentsOf(DatetimeTuple(args).value) == WithDefaults(args)
  {
  }

  /** Leaving out weekday, hour, minute, second or millisecond is the same
      as passing 0 for it. */
  lemma OmittedMeansZero(args: Arguments)
    ensures DatetimeTuple(args) == DatetimeTuple(WithDefaults(args))
  {
  }
}
