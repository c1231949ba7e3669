// Fixed-width integers and the option type shared by every component.
//
// The Go and C sources compute on 8-, 32- and 64-bit unsigned words. Values are
// mathematical integers here, constrained to the width of the field they model;
// every place where the source wraps around spells the modulus out.
module Machine {

  const TWO32: int := 0x1_0000_0000
  const TWO64: int := 0x1_0000_0000_0000_0000
  const MAX_UINT64: int := TWO64 - 1

  type uint8 = x: int | 0 <= x < 0x100
  type uint32 = x: int | 0 <= x < TWO32
  type uint64 = x: int | 0 <= x < TWO64

  datatype Option<+T> = None | Some(value: T)

  /** Unsigned 64-bit addition with wrap-around; the second operand may be negative. */
  function Add64(a: int, b: int): (r: uint64)
    ensures 0 <= a + b < TWO64 ==> r == a + b
  {
    (a + b) % TWO64
  }

  /** Unsigned 64-bit subtraction with wrap-around. */
  function Sub64(a: int, b: int): (r: uint64)
    ensures 0 <= a - b < TWO64 ==> r == a - b
  {
    (a - b) % TWO64
  }

  /** Wrapping once at the end is wrapping at every step. */
  lemma AddWraps(a: nat, b: uint64)
    ensures Add64(a % TWO64, b) == (a + b) % TWO64
  {
  }

  function Max(a: int, b: int): int { if a < b then b else a }
  function Min(a: int, b: int): int { if a < b then a else b }

  lemma SizeWithout<K, V>(m: map<K, V>, key: K)
    ensures |m - {key}| == |m| - (if key in m then 1 else 0)
  {
    var left := m - {key};
    assert left.Keys == m.Keys - {key};
    assert |left.Keys| == |left| && |m.Keys| == |m|;
  }

  lemma SizeWith<K, V>(m: map<K, V>, key: K, value: V)
    ensures |m[key := value]| == |m| + (if key in m then 0 else 1)
  {
    var grown := m[key := value];
    assert grown.Keys == m.Keys + {key};
    assert |grown.Keys| == |grown| && |m.Keys| == |m|;
  }
}
