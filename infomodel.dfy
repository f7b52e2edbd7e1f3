/**
 * The parts of the IDS information model the contract-request handler reads and writes,
 * as plain values in place of the model's builder objects.
 */
module InfoModel {
  import opened Calendar

  /** A `java.net.URI`, by its text: `URI.create(s)` keeps `s` as its string form. */
  type Uri = string

  datatype Action = Use

  /** The left operands of a constraint the handler uses. */
  datatype LeftOperand = PolicyEvaluationTime | System

  /** The binary operators of a constraint the handler uses. */
  datatype BinaryOperator = Lt | SameAs

  /** The datatype tag of a typed literal; the handler only writes date-time stamps. */
  datatype LiteralType = DateTimeStamp

  /**
   * A constraint's right operand: a typed literal (here a calendar value, whose lexical
   * form is the calendar's string rendering) or a reference to another entity.
   */
  datatype RightOperand =
    | TypedLiteral(value: Timestamp, literalType: LiteralType)
    | Reference(uri: Uri)

  datatype Constraint = Constraint(leftOperand: LeftOperand, operator: BinaryOperator, rightOperand: RightOperand)

  datatype Permission = Permission(target: Uri, actions: seq<Action>, constraints: seq<Constraint>)

  datatype ContractRequest = ContractRequest(permissions: seq<Permission>)

  datatype ContractOffer = ContractOffer(
    contractDate: Timestamp,
    contractStart: Timestamp,
    contractEnd: Timestamp,
    permissions: seq<Permission>)

  /** What the exchange's IDSCP2 header may hold. */
  datatype Header =
    | NoHeader
    | ContractRequestMessage(id: Uri)
    | ContractResponseMessageBuilder(correlationMessage: Uri)
    | OtherMessage(id: Uri)
}
