/** Column values and the comparison of two values in a condition. */
module Values {

  type Byte = b: int | 0 <= b < 256

  datatype CompOp = Eq | Ne | Lt | Gt | Le | Ge

  /** Integers, and character data (strings and datetimes) as bytes. */
  datatype Value = Num(n: int) | Text(s: seq<Byte>)

  /** The operator that reads the same with its operands exchanged. */
  function SwapOp(op: CompOp): CompOp {
    match op
    case Eq => Eq
    case Ne => Ne
    case Lt => Gt
    case Gt => Lt
    case Le => Ge
    case Ge => Le
  }

  /** What an operator asks of a three-way comparison. */
  predicate Holds(op: CompOp, cmp: int) {
    match op
    case Eq => cmp == 0
    case Ne => cmp != 0
    case Lt => cmp < 0
    case Gt => cmp > 0
    case Le => cmp <= 0
    case Ge => cmp >= 0
  }

  /** Three-way comparison of NUL-terminated strings: the first differing byte decides, and the end
      of a string counts as the byte 0. */
  function StrCmp(a: seq<Byte>, b: seq<Byte>): (c: int)
    ensures -1 <= c <= 1
  {
    var x: int := if a == [] then 0 else a[0];
    var y: int := if b == [] then 0 else b[0];
    if x < y then -1 else if y < x then 1 else if x == 0 then 0 else StrCmp(a[1..], b[1..])
  }

  predicate Comparable(l: Value, r: Value) {
    l.Num? <==> r.Num?
  }

  function Compare(l: Value, r: Value): int
    requires Comparable(l, r)
  {
    match l
    case Num(n) => if n < r.n then -1 else if n > r.n then 1 else 0
    case Text(s) => StrCmp(s, r.s)
  }

  /** The outcome of a binary condition; operands of incompatible types satisfy nothing. */
  predicate BinOp(op: CompOp, l: Value, r: Value) {
    Comparable(l, r) && Holds(op, Compare(l, r))
  }

  lemma {:induction false} StrCmpMirror(a: seq<Byte>, b: seq<Byte>)
    ensures StrCmp(b, a) == -StrCmp(a, b)
  {
    if a != [] && b != [] && a[0] == b[0] != 0 { StrCmpMirror(a[1..], b[1..]); }
  }

  /** Exchanging the operands and mirroring the operator changes no outcome. */
  lemma SwapLaw(op: CompOp, l: Value, r: Value)
    ensures BinOp(SwapOp(op), r, l) == BinOp(op, l, r)
  {
    if l.Text? && r.Text? { StrCmpMirror(l.s, r.s); }
  }
}
