// Memories as maps from places to values.
module Cells {

  // A cell that was never written reads as 0.
  function ReadCell<K>(m: map<K, int>, k: K): int {
    if k in m then m[k] else 0
  }

  lemma ReadWritten<K>(m: map<K, int>, k: K, v: int, x: K)
    ensures ReadCell(m[k := v], x) == if x == k then v else ReadCell(m, x)
  {
  }
}
