/** The compositing rules a composite node can carry. Only the tags matter to
    the bounds algebra and the blank-source policy; the blend arithmetic
    behind each rule is a parameter of the pixel model. */
module Rules {

  datatype CompositeRule =
    | Over
    | In
    | Out
    | Arithmetic(k1: real, k2: real, k3: real, k4: real)
      /** Any other rule (atop, xor, multiply, ...), identified by its tag. */
    | OtherRule(tag: nat)
  {
    /** The rules whose result bounds are the union of the source bounds. */
    predicate TakesUnion() {
      !In? && !Out?
    }
  }
}
