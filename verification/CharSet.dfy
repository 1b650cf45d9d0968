/** Character sets as boundary points: what the CharRange operations and the
    regular expressions' classes have in common. */
module CharSets {

  const UINT32_MAX := 0xFFFF_FFFF

  type U32 = x: int | 0 <= x < 0x1_0000_0000

  /** Consecutive pairs of points are half-open intervals; the set holds the
      characters inside some interval. */
  predicate In(pt: seq<U32>, c: int) {
    exists i :: 0 <= i < |pt| / 2 && pt[2 * i] <= c < pt[2 * i + 1]
  }

  /** Normal form: whole intervals, none of them empty, none touching. */
  predicate Canonical(pt: seq<U32>) {
    |pt| % 2 == 0 && forall i, j :: 0 <= i < j < |pt| ==> pt[i] < pt[j]
  }
}
