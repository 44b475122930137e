/** What several modules share. */
module Commons {

  datatype Option<T> = None | Some(value: T)

  function Reversed<T>(s: seq<T>): (r: seq<T>)
    ensures |r| == |s|
  {
    if s == [] then [] else [s[|s| - 1]] + Reversed(s[..|s| - 1])
  }

  /** Multiplication under a name of its own. */
  function Times(x: real, y: real): real {
    x * y
  }

  lemma DistributeReal(k: real, u: real, v: real)
    ensures k * (u + v) == k * u + k * v
  {
  }

  lemma DistributeInt(k: int, u: int, v: int)
    ensures k * (u + v) == k * u + k * v
    ensures k * (u - v) == k * u - k * v
  {
  }
}
