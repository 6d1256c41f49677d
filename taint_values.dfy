/** The four elements shared by the two definite-taint domains and what each
    says about whether a value is tainted. */
module TaintValues {

  datatype DefiniteTaint = Top | Tainted | Clean | Bottom

  predicate IsTop(t: DefiniteTaint) { t == Top }
  predicate IsBottom(t: DefiniteTaint) { t == Bottom }

  /** Concretisation: does the element admit a value whose taint is `tainted`? */
  predicate Describes(t: DefiniteTaint, tainted: bool)
  {
    match t
    case Top => true
    case Tainted => tainted
    case Clean => !tainted
    case Bottom => false
  }
}
