// What every part of the project shares.
module Wrappers {
  datatype Option<+T> = None | Some(value: T)

  function Pow2(k: nat): (p: nat)
    ensures p >= 1
  {
    if k == 0 then 1 else 2 * Pow2(k - 1)
  }

  predicate StartsWith(s: string, t: string) { |t| <= |s| && s[..|t|] == t }
}
