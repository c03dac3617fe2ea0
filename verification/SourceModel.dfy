/** Source locations, and the little the migrator asks of a source file. */
module SourceModel {

  /** A location is unset, an offset in the file, or inside a macro expansion.
      An expansion spans the file tokens that start at `first` and `last`. */
  datatype Loc =
    | Invalid
    | File(offset: nat)
    | Macro(first: nat, last: nat, atStart: bool, atEnd: bool)
  {
    function Expansion(): nat
      requires !Invalid?
    {
      if File? then offset else first
    }

    /** Where the text of the location is, or of the macro it comes from. */
    function ExpansionLoc(): Loc {
      if Invalid? then Invalid else File(Expansion())
    }
  }

  /** A token range: both ends are starts of tokens. */
  datatype SourceRange = SourceRange(begin: Loc, end: Loc) {
    predicate IsInvalid() { begin.Invalid? || end.Invalid? }
  }

  type Stmt = nat

  /** The file: its text, the end of the token at an offset, which offsets come
      from system headers, and what the syntax tree says of a statement. */
  datatype Source = Source(
    text: string,
    lexerTokenEnd: nat -> nat,
    inSystemHeader: nat -> bool,
    stmtRange: Stmt -> SourceRange,
    stmtIsExpr: Stmt -> bool,
    ignoreImplicit: Stmt -> Stmt)
  {
    /** Just past the token at a location; a macro expansion is skipped whole. */
    function TokenEnd(loc: Loc): nat
      requires !loc.Invalid?
    {
      lexerTokenEnd(if loc.File? then loc.offset else loc.last)
    }
  }
}
