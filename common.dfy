/** Values shared by the grid, its CSV codec and the nearest-event query,
    and the few Python list operations the source relies on. */
module Common {

  datatype Option<+T> = None | Some(value: T)

  datatype Result<+T, +E> = Ok(value: T) | Err(error: E)

  /** What `lowest_positive` returns: a ticket price, or `math.inf` when
      no price has a ticket left. */
  datatype Price = Finite(amount: int) | Inf

  /** A grid cell: an event number, or `None` for an empty cell. */
  type Cell = Option<int>

  type Row = seq<Cell>

  /** The grid as `World.grid` holds it: a list of rows. */
  type Grid = seq<Row>

  /** An event's offer table: ticket price (in cents) to tickets left. */
  type Offers = map<int, int>

  /** Python's `s[:k]` for an integer `k`; a negative `k` drops that many
      elements from the end. */
  function SlicePrefix<T>(s: seq<T>, k: int): (r: seq<T>)
    ensures r <= s
    ensures 0 <= k ==> |r| == (if k <= |s| then k else |s|)
    ensures k < 0 ==> |r| == (if -k <= |s| then |s| + k else 0)
  {
    var end := if k < 0 then |s| + k else k;
    if end < 0 then [] else if end <= |s| then s[..end] else s
  }

  /** The element `lst[i]` refers to in a Python list of length `n`, or
      `None` where Python raises `IndexError`. */
  function PyIndex(n: nat, i: int): (r: Option<nat>)
    ensures r.Some? <==> -(n as int) <= i < n
    ensures r.Some? ==> r.value < n && (r.value == i || r.value == n + i)
  {
    if 0 <= i < n then Some(i) else if -(n as int) <= i < 0 then Some(n + i) else None
  }

  /** Python's `reversed(s)`, and `s` after `s.reverse()`. */
  function Reverse<T>(s: seq<T>): (r: seq<T>)
    ensures |r| == |s|
    ensures forall i :: 0 <= i < |s| ==> r[i] == s[|s| - 1 - i]
  {
    if s == [] then [] else [s[|s| - 1]] + Reverse(s[..|s| - 1])
  }
}
