/** POLY_Polymorphic (poly.h): the word-sized union in which the containers carry their keys and values. */
module Poly {

  /** A union value, kept as the bit pattern it holds; the containers never look inside one. */
  datatype Poly = Poly(bits: int)

  /** POLY_DEFAULT: the null reference, every bit clear. */
  const DEFAULT: Poly := Poly(0)
}
