/**
 * The parts of Rust's `Range<usize>` the tool relies on: `Iterator::next`
 * and `Iterator::cmp` against a `&mut Range<usize>`, which compares the two
 * element sequences lexicographically and, because the right-hand side is
 * borrowed mutably, leaves it advanced past every element it pulled.
 */
module RangeIter {
  import opened Wrappers
  import opened Coordinates

  /** `start..end`; it yields nothing when `start >= end`. */
  datatype Range = Range(start: USize, end: USize)

  datatype Ordering = Less | Equal | Greater

  /** The elements a range yields, in order. */
  function Elements(r: Range): (s: seq<nat>)
    ensures |s| == if r.start < r.end then r.end - r.start else 0
    ensures forall i :: 0 <= i < |s| ==> s[i] == r.start + i
  {
    seq(if r.start < r.end then r.end - r.start else 0, i => r.start + i)
  }

  /** `Iterator::next`: the first element, and the range of the ones left. */
  function Next(r: Range): (res: (Option<USize>, Range))
    ensures Elements(r) == [] ==> res == (None, r)
    ensures Elements(r) != [] ==> res.0 == Some(Elements(r)[0]) && Elements(res.1) == Elements(r)[1..]
    ensures res.1.end == r.end
  {
    if r.start < r.end then (Some(r.start), Range(r.start + 1, r.end)) else (None, r)
  }

  /**
   * `a.cmp(&mut b)`: pull one element of `a`, then one of `b`; when `a` runs
   * out, pull once more from `b` to tell `Equal` from `Less`. Returns the
   * ordering and the state `b` is left in.
   */
  function IterCmp(a: Range, b: Range): (res: (Ordering, Range))
    ensures res.0 == LexCmp(Elements(a), Elements(b))
    ensures res.1.end == b.end
    ensures res.1.start == b.start + Min(CommonPrefix(Elements(a), Elements(b)) + 1, |Elements(b)|)
    decreases |Elements(a)|
  {
    var (x, a') := Next(a);
    var (y, b') := Next(b);
    match x
    case None => (if y.None? then Equal else Less, b')
    case Some(xv) =>
      match y
      case None => (Greater, b')
      case Some(yv) =>
        if xv < yv then (Less, b')
        else if yv < xv then (Greater, b')
        else IterCmp(a', b')
  }

  /** Lexicographic order on sequences: the reference `IterCmp` is measured against. */
  function LexCmp(s: seq<nat>, t: seq<nat>): Ordering
  {
    if s == [] then (if t == [] then Equal else Less)
    else if t == [] then Greater
    else if s[0] < t[0] then Less
    else if t[0] < s[0] then Greater
    else LexCmp(s[1..], t[1..])
  }

  /** The length of the longest common prefix of two sequences. */
  function CommonPrefix(s: seq<nat>, t: seq<nat>): (n: nat)
    ensures n <= |s| && n <= |t|
  {
    if s != [] && t != [] && s[0] == t[0] then 1 + CommonPrefix(s[1..], t[1..]) else 0
  }

  function Min(x: int, y: int): int { if x <= y then x else y }
}
