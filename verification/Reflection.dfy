/** The engine's reflection data, as far as the feature engine looks things up in it. */
module Reflection {

  /** The result of looking a property up on a class: the call failed, the class lacks it, or its offset. */
  datatype Resolution = Failed | Missing | At(offset: nat)
}
