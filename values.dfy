/** The Python objects that travel through the IMPROVER command line, and the
    few built-in operations on them that the command-line core relies on. */
module Values {

  datatype Option<+T> = None | Some(value: T)

  /** A Python class, written `module.name` when displayed. */
  datatype PyClass = PyClass(moduleName: string, name: string)

  /** A Python object as seen by the command-line core. */
  datatype PyValue =
    | Str(s: string)                            // a plain `str`
    | Carrier(name: string, original: PyValue)  // an `ObjectAsStr`: a `str` whose text is `name`
    | List(items: seq<PyValue>)                 // a `list` or a `tuple`
    | NoneValue                                 // `None`
    | Object(cls: PyClass, handle: int)         // any other object: a cube, a number, ...

  /** What a call into foreign code (a command, a loader) gives back. */
  datatype Outcome = Returned(value: PyValue) | Raised(error: string)

  const StrClass := PyClass("builtins", "str")
  const ListClass := PyClass("builtins", "list")
  const NoneClass := PyClass("builtins", "NoneType")
  const CarrierClass := PyClass("improver.cli", "ObjectAsStr")

  /** `isinstance(v, str)`: an `ObjectAsStr` is a `str` too. */
  predicate IsStr(v: PyValue) {
    v.Str? || v.Carrier?
  }

  /** The character data of a `str` (for a carrier, its display name). */
  function Text(v: PyValue): string
    requires IsStr(v)
  {
    if v.Str? then v.s else v.name
  }

  /** `type(v)` */
  function ClassOf(v: PyValue): PyClass {
    match v
    case Str(_) => StrClass
    case Carrier(_, _) => CarrierClass
    case List(_) => ListClass
    case NoneValue => NoneClass
    case Object(cls, _) => cls
  }

  /** `v == text` for a `str` literal `text`: only `str` instances compare equal
      to a `str`, by their character data. */
  predicate EqualsText(v: PyValue, text: string) {
    IsStr(v) && Text(v) == text
  }

  /** The characters `str.split()` and `str.isspace()` treat as white space. */
  predicate IsSpace(c: char) {
    ('\t' <= c <= '\r') || ('\U{1C}' <= c <= ' ') || c == '\U{85}' || c == '\U{A0}'
    || c == '\U{1680}' || ('\U{2000}' <= c <= '\U{200A}') || c == '\U{2028}' || c == '\U{2029}'
    || c == '\U{202F}' || c == '\U{205F}' || c == '\U{3000}'
  }

  /** A character that would split or restructure a command line: white space or a bracket. */
  predicate IsSeparator(c: char) {
    IsSpace(c) || c == '[' || c == ']'
  }

  /** A string the bracket parser and the argument lexer see as one bare token. */
  predicate IsBareToken(s: string) {
    forall k :: 0 <= k < |s| ==> !IsSeparator(s[k])
  }

  function DigitChar(d: nat): (c: char)
    requires d < 10
    ensures '0' <= c <= '9'
    ensures c as int - '0' as int == d
  {
    ('0' as int + d) as char
  }

  /** The decimal digits of `n`, most significant first. */
  function NatDigits(n: nat): (r: string)
    ensures 0 < |r|
    ensures forall k :: 0 <= k < |r| ==> '0' <= r[k] <= '9'
    ensures n < 10 <==> |r| == 1
    decreases n
  {
    if n < 10 then [DigitChar(n)] else NatDigits(n / 10) + [DigitChar(n % 10)]
  }

  /** The number that a string of decimal digits denotes, most significant first. */
  function DigitsValue(s: string): nat
    requires forall k :: 0 <= k < |s| ==> '0' <= s[k] <= '9'
    decreases |s|
  {
    if s == [] then 0 else 10 * DigitsValue(s[..|s| - 1]) + (s[|s| - 1] as int - '0' as int)
  }

  /** `NatDigits(n)` denotes `n`: the digits are those of `n` and no others. */
  lemma {:induction false} NatDigitsValue(n: nat)
    ensures DigitsValue(NatDigits(n)) == n
    decreases n
  {
    var r := NatDigits(n);
    if n >= 10 {
      NatDigitsValue(n / 10);
      assert r[..|r| - 1] == NatDigits(n / 10);
      assert r[|r| - 1] == DigitChar(n % 10);
    }
  }

  /** `'%i' % i` */
  function Decimal(i: int): (r: string)
    ensures 0 < |r|
    ensures i < 0 <==> r[0] == '-'
    ensures forall k :: 0 <= k < |r| ==> r[k] == '-' || '0' <= r[k] <= '9'
    ensures forall k :: 0 < k < |r| ==> '0' <= r[k] <= '9'
  {
    if i < 0 then "-" + NatDigits(-i) else NatDigits(i)
  }
}
