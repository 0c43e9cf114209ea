/** The operator enumerations the script parser declares
    (src/script/parse.rs). They carry no behaviour yet: there is no
    tokenizer, precedence table or parser to go with them. */
module ScriptParse {

  /** Binary operators, in declaration order. */
  datatype BinaryOp =
    | Add | Sub | Mul | Div
    | BitAnd | BitOr | BitXor
    | LogicAnd | LogicOr
    | LeftShift | RightShift
    | Assign | AddAssign | SubAssign | MulAssign | DivAssign
    | BitAndAssign | BitOrAssign | BitXorAssign
    | LeftShiftAssign | RightShiftAssign
    | CmpEq | CmpNe | CmpLt | CmpGt | CmpLe | CmpGe

  /** Unary operators. */
  datatype UnaryOp = Neg | Not
}
