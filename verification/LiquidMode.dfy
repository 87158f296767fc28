/** How much liquid-type checking a manifest asks for. */
module LiquidMode {

  datatype Liquid = Off | Optional | Required

  function Strictness(m: Liquid): nat {
    match m
    case Off => 0
    case Optional => 1
    case Required => 2
  }
}
