/** Construction-time parameters: the order (branching factor), Go's integer
    ceiling division and the minimum occupancy derived from the order. */
module Config {
  import opened Outcomes

  const DefaultOrder: int := 4

  /** Go's integer division truncates toward zero. */
  function GoQuo(x: int, y: int): int
    requires y != 0
  {
    // Dafny's / rounds toward zero whenever the dividend is non-negative
    if x >= 0 then x / y else -((-x) / y)
  }

  /** Go's remainder takes the sign of the dividend. */
  function GoRem(x: int, y: int): int
    requires y != 0
  {
    x - y * GoQuo(x, y)
  }

  /** ceil(x, y) of the source: the quotient, plus one when the division is
      not exact. For a non-negative x and a positive y this is the ceiling. */
  function Ceil(x: int, y: int): (r: int)
    requires y != 0
    ensures x >= 0 && y > 0 ==> (r - 1) * y < x <= r * y
  {
    var d := GoQuo(x, y);
    if GoRem(x, y) == 0 then d else d + 1
  }

  /** Halving rounds up, as (x + 1) / 2 does. */
  lemma CeilHalf(x: int)
    requires x >= 0
    ensures Ceil(x, 2) == (x + 1) / 2
  {
    var r := Ceil(x, 2);
    assert (r - 1) * 2 < x <= r * 2;
  }

  /** bptree.Option: a setting applied to a new tree. Order is the only one. */
  datatype TreeOption = OrderOption(order: int)

  /** Order(n): panics with "order must be >= 3" below 3. */
  function Order(order: int): (r: Result<TreeOption>)
    ensures r.Success? <==> order >= 3
    ensures r.Success? ==> r.value == OrderOption(order)
    ensures r.Failure? ==> r.error == "order must be >= 3"
  {
    if order < 3 then Failure("order must be >= 3") else Success(OrderOption(order))
  }

  /** New applies its options in turn over the default order 4: the last one wins. */
  function OrderAfter(options: seq<TreeOption>): (order: int)
    ensures options == [] ==> order == DefaultOrder
    ensures options != [] ==> order == options[|options| - 1].order
  {
    if options == [] then DefaultOrder else options[|options| - 1].order
  }

  /** minKeyNum = ceil(order, 2) - 1, the fewest keys a non-root node keeps. */
  function MinKeyNum(order: int): (m: int)
    ensures order >= 3 ==> 1 <= m < order - 1
  {
    Ceil(order, 2) - 1
  }

  /** For every order the Order option accepts: the minimum is at least one
      key, below the capacity, and both halves of a leaf split
      (ceil(order-1, 2) and order - ceil(order-1, 2) keys) and of an internal
      split (ceil(order-1, 2) and order-1 - ceil(order-1, 2) keys) meet it. */
  lemma SplitSizes(order: int)
    requires order >= 3
    ensures 1 <= MinKeyNum(order) < order - 1
    ensures 1 <= Ceil(order - 1, 2) < order - 1
    ensures MinKeyNum(order) <= Ceil(order - 1, 2)
    ensures MinKeyNum(order) <= order - 1 - Ceil(order - 1, 2)
    ensures MinKeyNum(order) <= order - Ceil(order - 1, 2)
  {
    var c := Ceil(order, 2);
    var m := Ceil(order - 1, 2);
    assert (c - 1) * 2 < order <= c * 2;
    assert (m - 1) * 2 < order - 1 <= m * 2;
  }
}
