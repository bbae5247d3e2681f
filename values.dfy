/** JavaScript values as they reach the translation engine: option values,
    locale identifiers and formatter arguments, with the coercions
    index.js relies on (property-key conversion and truthiness). */
module Values {

  /** The primitive values a caller can hand over. Numbers are integers
      here; fractional numbers are not modelled. */
  datatype Value = Undefined | Null | Bool(b: bool) | Num(n: int) | Str(s: string)

  /** The exceptions the engine can raise: the `Error` thrown by
      `configure` for a required key (its message names the key), and the
      `TypeError` the runtime raises on `null.length`, on `path.join` with a
      non-string directory, or on indexing an unloaded dictionary. */
  datatype Error = MissingConfig(key: string) | TypeError

  datatype Option<T> = None | Some(value: T)

  /** A value or the exception that replaced it. */
  datatype Result<T> = Ok(value: T) | Err(error: Error)

  /** How a statement that returns nothing ended. */
  datatype Status = Returned | Threw(error: Error)

  /** `obj[key]`, with `undefined` for an absent key. */
  function Get(m: map<string, Value>, key: string): Value {
    if key in m then m[key] else Undefined
  }

  /** JavaScript truthiness of a value. */
  predicate Truthy(v: Value) {
    match v
    case Undefined => false
    case Null => false
    case Bool(b) => b
    case Num(n) => n != 0
    case Str(s) => |s| > 0
  }

  function DigitChar(d: nat): char
    requires d < 10
  {
    ('0' as int + d) as char
  }

  /** Decimal spelling of a natural number, most significant digit first. */
  function Decimal(n: nat): (r: string)
    ensures |r| >= 1
    decreases n
  {
    if n < 10 then [DigitChar(n)] else Decimal(n / 10) + [DigitChar(n % 10)]
  }

  /** `String(v)`: the property key an object index `obj[v]` uses, and the
      text `v + '.js'` starts with. */
  function Key(v: Value): string {
    match v
    case Undefined => "undefined"
    case Null => "null"
    case Bool(b) => if b then "true" else "false"
    case Num(n) => if n < 0 then "-" + Decimal(-n) else Decimal(n)
    case Str(s) => s
  }

  /** A decimal spelling starts with a digit, never with a minus sign. */
  lemma {:induction false} DecimalStartsWithDigit(n: nat)
    ensures '0' <= Decimal(n)[0] <= '9'
    decreases n
  {
    if n >= 10 {
      DecimalStartsWithDigit(n / 10);
      assert Decimal(n)[0] == Decimal(n / 10)[0];
    }
  }

  /** Distinct naturals have distinct decimal spellings. */
  lemma {:induction false} DecimalInjective(a: nat, b: nat)
    requires Decimal(a) == Decimal(b)
    ensures a == b
    decreases a
  {
    if a >= 10 && b >= 10 {
      var da, db := Decimal(a), Decimal(b);
      assert da[..|da| - 1] == Decimal(a / 10);
      assert db[..|db| - 1] == Decimal(b / 10);
      assert da[|da| - 1] == DigitChar(a % 10) && db[|db| - 1] == DigitChar(b % 10);
      DecimalInjective(a / 10, b / 10);
    }
  }

  /** Two numbers give the same property key exactly when they are equal,
      so distinct numeric locales index distinct cache entries. */
  lemma KeyNumInjective(a: int, b: int)
    ensures Key(Num(a)) == Key(Num(b)) <==> a == b
  {
    if Key(Num(a)) == Key(Num(b)) {
      if a < 0 && b < 0 {
        assert Key(Num(a))[1..] == Decimal(-a) && Key(Num(b))[1..] == Decimal(-b);
        DecimalInjective(-a, -b);
      } else if a < 0 {
        DecimalStartsWithDigit(b);
      } else if b < 0 {
        DecimalStartsWithDigit(a);
      } else {
        DecimalInjective(a, b);
      }
    }
  }
}
