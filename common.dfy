/** Types shared by the host-side programmer and the firmware driver. */
module Common {

  /** A byte value as both sides of the link use it: Python's range-checked
      `int` on the host, Arduino's unsigned `byte` on the firmware. */
  type Byte = b: int | 0 <= b < 0x100

  datatype Option<+T> = None | Some(value: T)

  /** 2 to the power n. */
  function Pow2(n: nat): (r: nat)
    ensures r >= 1
  {
    if n == 0 then 1 else 2 * Pow2(n - 1)
  }

  /** The two parts of a concatenation, sliced back out. */
  lemma AppendedParts<T>(a: seq<T>, b: seq<T>)
    ensures (a + b)[..|a|] == a && (a + b)[|a|..] == b
  {
  }

  lemma AppendAssociates<T>(a: seq<T>, b: seq<T>, c: seq<T>)
    ensures a + b + c == a + (b + c)
  {
  }

  /** A prefix of a sequence that extends another is a prefix of that other. */
  lemma PrefixOfExtension<T>(a: seq<T>, b: seq<T>, n: nat)
    requires n <= |b| <= |a| && a[..|b|] == b
    ensures a[..n] == b[..n]
  {
    assert a[..n] == a[..|b|][..n];
  }
}
