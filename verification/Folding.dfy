/** A definition is kept folded by putting it under a quantifier that only a mention of Look sets off:
    a proof that needs what the definition says looks inside, and every other proof is spared it. What
    Look is applied to says which definitions are meant: one about an object, or one of a kind. */
module Folding {

  predicate Look<T>(x: T) { true }

  datatype Kind =
    | PageLists | ObjectLists | PageCalls | Growth | Slots | Lack | Way | Mapping | Payment | Limit | Gap | Choice | Emptiness | Trial | Progress | Turns | Tags
}
