/** The comparison vocabulary the wrapper's `Ord` and `PartialOrd` impls answer in:
    `core::cmp::Ordering`, and the `Option` that `partial_cmp` returns. */
module Ordered {

  datatype Ordering = Less | Equal | Greater {

    /** `Ordering::reverse`: the answer of the comparison with its operands swapped. */
    function Reverse(): Ordering {
      match this
      case Less => Greater
      case Equal => Equal
      case Greater => Less
    }
  }

  datatype Option<+T> = None | Some(value: T)

  /** `Ord::cmp` on mathematical integers: the reference total order. */
  function Compare(x: int, y: int): Ordering {
    if x < y then Less else if x == y then Equal else Greater
  }
}
