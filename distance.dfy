/**
  Construction of the distance constraint |X - Y| OP C (DistanceXYC): only the
  operators =, >, < and != are accepted; any other one raises a solver exception.
 */
module Distance {

  /** The comparison operators of the solver's constraint language. */
  datatype Operator = NONE | EQ | LT | GT | NQ | LE | GE | PL | MN

  /** `Enum.name()`: the constant's identifier. */
  function Name(op: Operator): string
  {
    match op
    case NONE => "NONE"
    case EQ => "EQ"
    case LT => "LT"
    case GT => "GT"
    case NQ => "NQ"
    case LE => "LE"
    case GE => "GE"
    case PL => "PL"
    case MN => "MN"
  }

  /** An integer variable, by identity. */
  type VarId = nat

  datatype DistanceXYC = DistanceXYC(name: string, x: VarId, y: VarId, c: int, operator: Operator)

  datatype Result = Constructed(constraint: DistanceXYC) | SolverException(message: string)

  const UNEXPECTED_OPERATOR: string := "Unexpected operator for distance"

  /** The operators the distance constraint supports. */
  predicate Supported(op: Operator)
  {
    op == EQ || op == GT || op == LT || op == NQ
  }

  /** The constructor: rejects an unsupported operator, otherwise stores its arguments. */
  function New(x: VarId, y: VarId, op: Operator, c: int): (r: Result)
    ensures r.Constructed? <==> Supported(op)
    ensures r.SolverException? ==> r.message == UNEXPECTED_OPERATOR
    ensures r.Constructed? ==>
              && r.constraint.x == x && r.constraint.y == y
              && r.constraint.c == c && r.constraint.operator == op
              && r.constraint.name == "DistanceXYC " + Name(op)
  {
    if !Supported(op) then SolverException(UNEXPECTED_OPERATOR)
    else Constructed(DistanceXYC("DistanceXYC " + Name(op), x, y, c, op))
  }

  /** Different operators have different names. */
  lemma NameInjective(a: Operator, b: Operator)
    requires Name(a) == Name(b)
    ensures a == b
  {
    assert Name(a)[0] == Name(b)[0] && Name(a)[1] == Name(b)[1];
  }

  /** The name of a constructed constraint tells which operator it was built with. */
  lemma NameDeterminesOperator(x1: VarId, y1: VarId, op1: Operator, c1: int,
                               x2: VarId, y2: VarId, op2: Operator, c2: int)
    requires New(x1, y1, op1, c1).Constructed? && New(x2, y2, op2, c2).Constructed?
    requires New(x1, y1, op1, c1).constraint.name == New(x2, y2, op2, c2).constraint.name
    ensures op1 == op2
  {
    var n1 := New(x1, y1, op1, c1).constraint.name;
    var n2 := New(x2, y2, op2, c2).constraint.name;
    assert n1[12..] == Name(op1);
    assert n2[12..] == Name(op2);
    NameInjective(op1, op2);
  }
}
