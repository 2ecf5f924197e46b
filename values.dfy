/**
 * The scalar values carried by a transaction record once it has crossed the
 * JSON boundary, as the front end sees them: a string, a number, a boolean or
 * null. Numbers are integral here.
 */
module Values {
  import opened Wrappers
  import Text

  datatype Value = Str(s: string) | Num(n: int) | Bool(b: bool) | Null

  /** A flat record: column name to value. */
  type Record = map<string, Value>

  /** `row[key]`, reading an absent column as null. */
  function Field(row: Record, key: string): Value {
    if key in row then row[key] else Null
  }

  /**
   * `value?.toString()`: the text of a value, or nothing for null, which the
   * optional chaining turns into `undefined`.
   */
  function Stringify(v: Value): (r: Option<string>)
    ensures r.None? <==> v.Null?
    ensures v.Str? ==> r == Some(v.s)
    ensures v.Bool? ==> r == Some(if v.b then "true" else "false")
    ensures v.Num? ==> r == Some(Text.IntToString(v.n))
  {
    match v
    case Str(s) => Some(s)
    case Num(n) => Some(Text.IntToString(n))
    case Bool(b) => Some(if b then "true" else "false")
    case Null => None
  }

  // ---------------------------------------------------------------------------
  // Ordering used by the table sort. Within one kind it follows JavaScript's
  // `<`: numbers numerically, strings character by character, false before
  // true. Characters are compared as Unicode scalar values, where JavaScript
  // compares UTF-16 code units; the two orders differ only between characters
  // above U+FFFF and those from U+E000 to U+FFFF. Values of different kinds
  // are ordered by kind.
  // ---------------------------------------------------------------------------

  function KindRank(v: Value): nat {
    match v
    case Null => 0
    case Bool(_) => 1
    case Num(_) => 2
    case Str(_) => 3
  }

  /** Lexicographic order on strings, a character at a time. */
  predicate StrLess(a: string, b: string)
    decreases |a|
  {
    if a == [] then b != []
    else if b == [] then false
    else if a[0] != b[0] then a[0] < b[0]
    else StrLess(a[1..], b[1..])
  }

  /** The comparator: by kind first, then within the kind. */
  predicate Less(a: Value, b: Value): (less: bool)
    ensures KindRank(a) != KindRank(b) ==> (less <==> KindRank(a) < KindRank(b))
    ensures a.Num? && b.Num? ==> (less <==> a.n < b.n)
    ensures a.Str? && b.Str? ==> (less <==> StrLess(a.s, b.s))
    ensures a.Bool? && b.Bool? ==> (less <==> !a.b && b.b)
    ensures a.Null? ==> (less <==> !b.Null?)
  {
    if KindRank(a) != KindRank(b) then KindRank(a) < KindRank(b)
    else match (a, b)
      case (Num(x), Num(y)) => x < y
      case (Str(x), Str(y)) => StrLess(x, y)
      case (Bool(x), Bool(y)) => !x && y
      case _ => false
  }

  lemma {:induction false} StrLessIrreflexive(a: string)
    ensures !StrLess(a, a)
    decreases |a|
  {
    if a != [] {
      StrLessIrreflexive(a[1..]);
    }
  }

  lemma {:induction false} StrLessTransitive(a: string, b: string, c: string)
    requires StrLess(a, b) && StrLess(b, c)
    ensures StrLess(a, c)
    decreases |a|
  {
    if a != [] && b != [] && c != [] && a[0] == b[0] && b[0] == c[0] {
      StrLessTransitive(a[1..], b[1..], c[1..]);
    }
  }

  /** Two different strings are always ordered one way or the other. */
  lemma {:induction false} StrLessTotal(a: string, b: string)
    requires a != b
    ensures StrLess(a, b) || StrLess(b, a)
    decreases |a|
  {
    if a != [] && b != [] && a[0] == b[0] {
      assert a == [a[0]] + a[1..] && b == [b[0]] + b[1..];
      StrLessTotal(a[1..], b[1..]);
    }
  }

  /** `Less` is a strict total order on values. */
  lemma LessIrreflexive(a: Value)
    ensures !Less(a, a)
  {
    if a.Str? {
      StrLessIrreflexive(a.s);
    }
  }

  lemma LessTransitive(a: Value, b: Value, c: Value)
    requires Less(a, b) && Less(b, c)
    ensures Less(a, c)
  {
    if a.Str? && b.Str? && c.Str? {
      StrLessTransitive(a.s, b.s, c.s);
    }
  }

  lemma LessTotal(a: Value, b: Value)
    requires a != b
    ensures Less(a, b) || Less(b, a)
  {
    if a.Str? && b.Str? {
      StrLessTotal(a.s, b.s);
    }
  }
}
