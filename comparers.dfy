/** Choosing a comparison (IDataBatchComparer.cs): a comparer offers one
    method per relational operator, and TryBuild picks the method for a
    given operator without running it. */
module Comparers {

  /** The comparison operators of a query. The six relational ones are
      named; any other member of the enumeration is `Other`, carrying the
      name it prints as. */
  datatype CompareOperator =
    | Equals
    | NotEquals
    | GreaterThan
    | GreaterThanOrEqual
    | LessThan
    | LessThanOrEqual
    | Other(name: string)
  {
    /** The name ToString gives the operator. */
    function Name(): string
    {
      match this
      case Equals => "Equals"
      case NotEquals => "NotEquals"
      case GreaterThan => "GreaterThan"
      case GreaterThanOrEqual => "GreaterThanOrEqual"
      case LessThan => "LessThan"
      case LessThanOrEqual => "LessThanOrEqual"
      case Other(name) => name
    }

    /** Whether the operator holds between two values whose three-way
        comparison has sign `sign` (negative, zero or positive). */
    predicate Holds(sign: int)
    {
      match this
      case Equals => sign == 0
      case NotEquals => sign != 0
      case GreaterThan => sign > 0
      case GreaterThanOrEqual => sign >= 0
      case LessThan => sign < 0
      case LessThanOrEqual => sign <= 0
      case Other(_) => false
    }
  }

  /** The six methods of IDataBatchComparer. */
  datatype ComparerMethod =
    | WhereEquals
    | WhereNotEquals
    | WhereLessThan
    | WhereLessThanOrEquals
    | WhereGreaterThan
    | WhereGreaterThanOrEquals
  {
    /** The rows each method keeps: those whose left value compares to the
        right value with a sign for which this holds. */
    predicate Keeps(sign: int)
    {
      match this
      case WhereEquals => sign == 0
      case WhereNotEquals => sign != 0
      case WhereLessThan => sign < 0
      case WhereLessThanOrEquals => sign <= 0
      case WhereGreaterThan => sign > 0
      case WhereGreaterThanOrEquals => sign >= 0
    }
  }

  /** A method of a particular comparer, as a delegate binds it. */
  datatype BoundMethod<C> = BoundMethod(comparer: C, chosen: ComparerMethod)

  /** The NotImplementedException TryBuild throws, with its message. */
  datatype Error = NotImplemented(message: string)

  datatype Result<T> = Ok(value: T) | Err(error: Error)

  /** The one operator each comparer method implements. */
  function OperatorOf(m: ComparerMethod): (op: CompareOperator)
    ensures !op.Other?
  {
    match m
    case WhereEquals => Equals
    case WhereNotEquals => NotEquals
    case WhereLessThan => LessThan
    case WhereLessThanOrEquals => LessThanOrEqual
    case WhereGreaterThan => GreaterThan
    case WhereGreaterThanOrEquals => GreaterThanOrEqual
  }

  /** DataBatchComparerExtensions.TryBuild: the comparer's method for `op`,
      or, for an operator that is not one of the six, the not-implemented
      error named after the operator. */
  function TryBuild<C>(comparer: C, op: CompareOperator): (r: Result<BoundMethod<C>>)
    ensures r.Ok? <==> !op.Other?
    ensures r.Ok? ==> r.value.comparer == comparer
    ensures r.Err? ==> r.error == NotImplemented(op.Name())
  {
    match op
    case Equals => Ok(BoundMethod(comparer, WhereEquals))
    case NotEquals => Ok(BoundMethod(comparer, WhereNotEquals))
    case GreaterThan => Ok(BoundMethod(comparer, WhereGreaterThan))
    case GreaterThanOrEqual => Ok(BoundMethod(comparer, WhereGreaterThanOrEquals))
    case LessThan => Ok(BoundMethod(comparer, WhereLessThan))
    case LessThanOrEqual => Ok(BoundMethod(comparer, WhereLessThanOrEquals))
    case Other(_) => Err(NotImplemented(op.Name()))
  }

  /** The method chosen for an operator keeps exactly the rows the operator
      selects. */
  lemma TryBuildKeepsMeaning<C>(comparer: C, op: CompareOperator, sign: int)
    requires !op.Other?
    ensures TryBuild(comparer, op).value.chosen.Keeps(sign) == op.Holds(sign)
  {
  }

  /** Every method is chosen, for its own operator, and for that one only:
      OperatorOf inverts TryBuild. */
  lemma TryBuildOperatorOf<C>(comparer: C, m: ComparerMethod)
    ensures TryBuild(comparer, OperatorOf(m)) == Ok(BoundMethod(comparer, m))
  {
  }

  lemma OperatorOfTryBuild<C>(comparer: C, op: CompareOperator)
    requires !op.Other?
    ensures OperatorOf(TryBuild(comparer, op).value.chosen) == op
  {
  }

  /** Two operators that both succeed and choose the same method are the
      same operator. */
  lemma TryBuildInjective<C>(comparer: C, a: CompareOperator, b: CompareOperator)
    requires TryBuild(comparer, a).Ok? && TryBuild(comparer, b).Ok?
    requires TryBuild(comparer, a).value.chosen == TryBuild(comparer, b).value.chosen
    ensures a == b
  {
    OperatorOfTryBuild(comparer, a);
    OperatorOfTryBuild(comparer, b);
  }
}
