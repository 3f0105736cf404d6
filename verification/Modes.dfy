/** The codec modes, in the order of `enum Mode`. */
module Modes {
  datatype Mode = MR475 | MR515 | MR59 | MR67 | MR74 | MR795 | MR102 | MR122 | MRDTX
}
