/** Types and arithmetic shared by the models of the torrent service. */
module Common {

  /** An octet of torrent data or of an encoded string. */
  newtype byte = x: int | 0 <= x < 256

  /** The highest download priority of a piece; the lowest, 0, means it is not wanted. */
  const TOP_PRIORITY := 7

  datatype Option<+T> = None | Some(value: T)

  function Min(a: int, b: int): int {
    if a <= b then a else b
  }

  function Max(a: int, b: int): int {
    if a <= b then b else a
  }

  /** Integer division as C++ defines it: the quotient is truncated toward zero. */
  function TruncDiv(a: int, d: int): int
    requires d > 0
  {
    if a >= 0 then a / d else -((-a) / d)
  }

  /** Remainder that goes with `TruncDiv`: it takes the sign of the dividend. */
  function TruncMod(a: int, d: int): int
    requires d > 0
  {
    a - d * TruncDiv(a, d)
  }

  /** Conversion to a 32-bit signed integer. */
  function Int32(x: int): int {
    var low := x % 0x1_0000_0000;
    if low < 0x8000_0000 then low else low - 0x1_0000_0000
  }

  /** Sum of a sequence of numbers. */
  function Sum(s: seq<int>): int {
    if s == [] then 0 else s[0] + Sum(s[1..])
  }

  lemma {:induction false} SumAppend(s: seq<int>, t: seq<int>)
    ensures Sum(s + t) == Sum(s) + Sum(t)
  {
    if s == [] {
      assert s + t == t;
    } else {
      SumAppend(s[1..], t);
      assert (s + t)[1..] == s[1..] + t;
    }
  }

  lemma NonEmptySet(s: set<int>)
    requires s != {}
    ensures exists x :: x in s
  {
    if forall x :: x !in s {
      assert false;
    }
  }

  lemma PercentageInRange(part: int, whole: int)
    requires 0 <= part <= whole && 0 < whole
    ensures 0.0 <= 100.0 * part as real / whole as real <= 100.0
    ensures 100.0 * part as real / whole as real == 100.0 ==> part == whole
  {
  }
}
