/** The values an event body and a query property carry once JSON has been
    parsed: nil, booleans, integers and strings; and Ruby's `to_s` on them,
    which is what names a posting list. Hash keys given by a caller may be
    symbols or strings (`Key`), and `types:` may be nil, one value or an array
    (Ruby's `Array(...)`). */
module Scalars {

  datatype Scalar = Null | Bool(b: bool) | Int(i: int) | Str(s: string)

  /** A symbol `:name` or a string key. */
  datatype Key = Sym(name: string) | Text(s: string)

  /** The decimal digit for `d`. */
  function Digit(d: nat): (c: char)
    requires d < 10
    ensures '0' <= c <= '9'
  {
    "0123456789"[d]
  }

  /** `Integer#to_s` for a natural number: decimal digits, most significant first. */
  function NatToS(n: nat): (s: string)
    ensures |s| > 0
    ensures forall i :: 0 <= i < |s| ==> '0' <= s[i] <= '9'
  {
    if n < 10 then [Digit(n)] else NatToS(n / 10) + [Digit(n % 10)]
  }

  /** `to_s` of a JSON scalar: `nil.to_s` is empty, booleans print as words. */
  function ToS(v: Scalar): string
  {
    match v
    case Null => ""
    case Bool(b) => if b then "true" else "false"
    case Int(i) => if i < 0 then "-" + NatToS(-i) else NatToS(i)
    case Str(s) => s
  }

  /** The integer 42 and the string "42" name the same posting list. */
  lemma IntAndStringShareName()
    ensures ToS(Int(42)) == ToS(Str("42"))
    ensures ToS(Int(-7)) == "-7"
  {
    assert NatToS(42) == NatToS(4) + [Digit(2)];
  }

  /** `Symbol#to_s` / `String#to_s`. */
  function KeyToS(k: Key): string
  {
    match k
    case Sym(name) => name
    case Text(s) => s
  }

  /** The argument of `types:`: nil, a single type name, or an array of them. */
  datatype TypesArg = NilTypes | OneType(t: Key) | TypeList(ts: seq<Key>)

  /** `Array(types).map(&:to_s)`. */
  function TypeNames(types: TypesArg): (r: seq<string>)
    ensures types.NilTypes? ==> r == []
    ensures types.OneType? ==> r == [KeyToS(types.t)]
    ensures types.TypeList? ==>
              |r| == |types.ts| && forall i :: 0 <= i < |r| ==> r[i] == KeyToS(types.ts[i])
  {
    match types
    case NilTypes => []
    case OneType(t) => [KeyToS(t)]
    case TypeList(ts) => seq(|ts|, i requires 0 <= i < |ts| => KeyToS(ts[i]))
  }
}
