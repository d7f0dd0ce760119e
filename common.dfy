/** Small helpers shared by the modules of this model. */
module Common {
  /** The in-memory workspace of the GIS library: the default output location and merge workspace. */
  const InMemory: string := "in_memory"

  /** Python's `None` or a present value. */
  datatype Option<T> = None | Some(value: T)

  /** Python's `s[:-n]` for n > 0: all but the last n characters, empty when s is shorter. */
  function DropLast(s: string, n: nat): (r: string)
    requires n > 0
    ensures |s| >= n ==> |r| == |s| - n && r <= s
    ensures |s| < n ==> r == []
  {
    if |s| >= n then s[..|s| - n] else []
  }

  /** Python's `s.replace(from, to)` for one-character `from` and `to`. */
  function ReplaceChar(s: string, from: char, to: char): (r: string)
    ensures |r| == |s|
    ensures forall k :: 0 <= k < |s| ==> r[k] == (if s[k] == from then to else s[k])
  {
    if s == [] then [] else [if s[0] == from then to else s[0]] + ReplaceChar(s[1..], from, to)
  }
}
