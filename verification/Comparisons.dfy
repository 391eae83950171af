/** The six numeric comparisons. */
module Comparisons {
  datatype NumOp = GT | LT | GTE | LTE | EQ | NEQ

  predicate Compare(op: NumOp, a: real, b: real) {
    match op
    case GT => a > b
    case LT => a < b
    case GTE => a >= b
    case LTE => a <= b
    case EQ => a == b
    case NEQ => a != b
  }
}
