/** The Unicode capability the engine relies on, utf8proc_iterate and the general category of a
    codepoint, taken as an oracle: the character database itself is not part of this model. */
module Unicode {

  /** The general categories, in the order of utf8proc_category_t (CN is 0, CO is 29). */
  datatype Category =
    | Cn | Lu | Ll | Lt | Lm | Lo | Mn | Mc | Me | Nd | Nl | No | Pc | Pd | Ps
    | Pe | Pi | Pf | Po | Sm | Sc | Sk | So | Zs | Zl | Zp | Cc | Cf | Cs | Co

  /** What utf8proc_iterate reports: the number of bytes read (a negative error code when no
      valid codepoint starts here) and the codepoint. */
  datatype Decoded = Decoded(len: int, cp: int)

  /** The two library calls the engine makes. `iterate(s)` is utf8proc_iterate on the
      remaining bytes `s`; `category(c)` is the category field of utf8proc_get_property(c). */
  datatype Oracle = Oracle(iterate: seq<bv8> -> Decoded, category: int -> Category)
  {
    /** utf8proc_iterate never claims to have read more bytes than it was given. */
    ghost predicate Valid()
    {
      forall s: seq<bv8> :: 0 < |s| ==> iterate(s).len <= |s|
    }
  }

  /** sb_is_letter: the five letter categories (uppercase, lowercase, titlecase, modifier, other). */
  function IsLetter(c: Category): (r: bool)
    ensures r <==> c in {Lu, Ll, Lt, Lm, Lo}
  {
    match c
    case Lu => true
    case Ll => true
    case Lt => true
    case Lm => true
    case Lo => true
    case _ => false
  }
}
