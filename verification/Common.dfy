/**
 What several modules share.
 */
module Common {

  datatype Option<+T> = None | Some(value: T)

  /** The run states of tasks. */
  datatype RunState = Ready | Zombie | Running | Blocked | Deleted | Stopped

  function Min(a: nat, b: nat): nat {
    if a < b then a else b
  }

  /** One more than the largest uint64_t. */
  const TOP: nat := 0x1_0000_0000_0000_0000

  /** uint64_t arithmetic. */
  function Unsigned(x: int): (r: nat)
    ensures r < TOP
    ensures 0 <= x < TOP ==> r == x
    ensures TOP <= x < 2 * TOP ==> r == x - TOP
    ensures x == -1 ==> r == TOP - 1
  {
    x % 0x1_0000_0000_0000_0000
  }

  /** uint32_t arithmetic. */
  const TOP32: nat := 0x1_0000_0000

  function Unsigned32(x: nat): (r: nat)
    ensures r < TOP32
    ensures x < TOP32 ==> r == x
    ensures TOP32 <= x < 2 * TOP32 ==> r == x - TOP32
  {
    x % 0x1_0000_0000
  }

  /** Conversion to a 32-bit `int`. */
  function ToInt(x: int): (r: int)
    ensures -0x8000_0000 <= r < 0x8000_0000
    ensures 0 <= x < 0x8000_0000 ==> r == x
  {
    var low := x % 0x1_0000_0000;
    if low < 0x8000_0000 then low else low - 0x1_0000_0000
  }

  /** No element occurs twice. */
  ghost predicate Distinct<T>(s: seq<T>) {
    forall i, j :: 0 <= i < j < |s| ==> s[i] != s[j]
  }

  /** Always true; a condition `forall z :: Gate(z) ==> Body` is `Body`, seen only where a gate is mentioned. */
  predicate Gate(z: int) { true }
}
