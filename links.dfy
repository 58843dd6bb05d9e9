/**
 * The link tables of a level: trap wirings (button -> trap), cloner wirings
 * (button -> cloning machine) and the list of cells on the forced-move list,
 * with the linear lookups LevelData answers over them.
 */
module Links {
  import opened Tiles

  datatype Trap = Trap(button: Point, trap: Point)
  datatype Clone = Clone(button: Point, clone: Point)

  /** linkedTraps: the traps wired to the button at (x, y), in list order. */
  function LinkedTraps(traps: seq<Trap>, x: int, y: int): (r: seq<Point>)
    ensures |r| <= |traps|
    ensures forall q :: q in r <==> Trap(Point(x, y), q) in traps
  {
    if |traps| == 0 then []
    else
      var rest := LinkedTraps(traps[1..], x, y);
      assert forall t :: t in traps <==> t == traps[0] || t in traps[1..];
      if traps[0].button == Point(x, y) then [traps[0].trap] + rest else rest
  }

  /** linkedTrapButtons: the buttons wired to the trap at (x, y), in list order. */
  function LinkedTrapButtons(traps: seq<Trap>, x: int, y: int): (r: seq<Point>)
    ensures |r| <= |traps|
    ensures forall q :: q in r <==> Trap(q, Point(x, y)) in traps
  {
    if |traps| == 0 then []
    else
      var rest := LinkedTrapButtons(traps[1..], x, y);
      assert forall t :: t in traps <==> t == traps[0] || t in traps[1..];
      if traps[0].trap == Point(x, y) then [traps[0].button] + rest else rest
  }

  /** linkedCloners: the cloning machines wired to the button at (x, y), in list order. */
  function LinkedCloners(clones: seq<Clone>, x: int, y: int): (r: seq<Point>)
    ensures |r| <= |clones|
    ensures forall q :: q in r <==> Clone(Point(x, y), q) in clones
  {
    if |clones| == 0 then []
    else
      var rest := LinkedCloners(clones[1..], x, y);
      assert forall c :: c in clones <==> c == clones[0] || c in clones[1..];
      if clones[0].button == Point(x, y) then [clones[0].clone] + rest else rest
  }

  /** linkedCloneButtons: the buttons wired to the cloning machine at (x, y), in list order. */
  function LinkedCloneButtons(clones: seq<Clone>, x: int, y: int): (r: seq<Point>)
    ensures |r| <= |clones|
    ensures forall q :: q in r <==> Clone(q, Point(x, y)) in clones
  {
    if |clones| == 0 then []
    else
      var rest := LinkedCloneButtons(clones[1..], x, y);
      assert forall c :: c in clones <==> c == clones[0] || c in clones[1..];
      if clones[0].clone == Point(x, y) then [clones[0].button] + rest else rest
  }

  /** checkMove: (x, y) is on the forced-move list. */
  function CheckMove(moves: seq<Point>, x: int, y: int): (r: bool)
    ensures r <==> Point(x, y) in moves
  {
    if |moves| == 0 then false
    else
      assert forall m :: m in moves <==> m == moves[0] || m in moves[1..];
      moves[0] == Point(x, y) || CheckMove(moves[1..], x, y)
  }

  /** The two directions of the trap table answer each other. */
  lemma TrapLookupsAgree(traps: seq<Trap>, button: Point, trap: Point)
    ensures trap in LinkedTraps(traps, button.X, button.Y) <==> button in LinkedTrapButtons(traps, trap.X, trap.Y)
  {
  }

  lemma CloneLookupsAgree(clones: seq<Clone>, button: Point, clone: Point)
    ensures clone in LinkedCloners(clones, button.X, button.Y) <==> button in LinkedCloneButtons(clones, clone.X, clone.Y)
  {
  }

  // The lookups keep list order: the answer for a concatenated table is the
  // concatenation of the answers.

  lemma {:induction false} LinkedTrapsOrder(a: seq<Trap>, b: seq<Trap>, x: int, y: int)
    ensures LinkedTraps(a + b, x, y) == LinkedTraps(a, x, y) + LinkedTraps(b, x, y)
  {
    if |a| > 0 {
      assert (a + b)[1..] == a[1..] + b;
      LinkedTrapsOrder(a[1..], b, x, y);
    } else {
      assert a + b == b;
    }
  }

  lemma {:induction false} LinkedTrapButtonsOrder(a: seq<Trap>, b: seq<Trap>, x: int, y: int)
    ensures LinkedTrapButtons(a + b, x, y) == LinkedTrapButtons(a, x, y) + LinkedTrapButtons(b, x, y)
  {
    if |a| > 0 {
      assert (a + b)[1..] == a[1..] + b;
      LinkedTrapButtonsOrder(a[1..], b, x, y);
    } else {
      assert a + b == b;
    }
  }

  lemma {:induction false} LinkedClonersOrder(a: seq<Clone>, b: seq<Clone>, x: int, y: int)
    ensures LinkedCloners(a + b, x, y) == LinkedCloners(a, x, y) + LinkedCloners(b, x, y)
  {
    if |a| > 0 {
      assert (a + b)[1..] == a[1..] + b;
      LinkedClonersOrder(a[1..], b, x, y);
    } else {
      assert a + b == b;
    }
  }

  lemma {:induction false} LinkedCloneButtonsOrder(a: seq<Clone>, b: seq<Clone>, x: int, y: int)
    ensures LinkedCloneButtons(a + b, x, y) == LinkedCloneButtons(a, x, y) + LinkedCloneButtons(b, x, y)
  {
    if |a| > 0 {
      assert (a + b)[1..] == a[1..] + b;
      LinkedCloneButtonsOrder(a[1..], b, x, y);
    } else {
      assert a + b == b;
    }
  }

  // One more entry scanned: the step of each lookup loop.

  lemma LinkedTrapsSnoc(ts: seq<Trap>, i: nat, x: int, y: int)
    requires i < |ts|
    ensures LinkedTraps(ts[..i + 1], x, y)
         == LinkedTraps(ts[..i], x, y) + (if ts[i].button == Point(x, y) then [ts[i].trap] else [])
  {
    assert ts[..i + 1] == ts[..i] + [ts[i]];
    LinkedTrapsOrder(ts[..i], [ts[i]], x, y);
  }

  lemma LinkedTrapButtonsSnoc(ts: seq<Trap>, i: nat, x: int, y: int)
    requires i < |ts|
    ensures LinkedTrapButtons(ts[..i + 1], x, y)
         == LinkedTrapButtons(ts[..i], x, y) + (if ts[i].trap == Point(x, y) then [ts[i].button] else [])
  {
    assert ts[..i + 1] == ts[..i] + [ts[i]];
    LinkedTrapButtonsOrder(ts[..i], [ts[i]], x, y);
  }

  lemma LinkedClonersSnoc(cs: seq<Clone>, i: nat, x: int, y: int)
    requires i < |cs|
    ensures LinkedCloners(cs[..i + 1], x, y)
         == LinkedCloners(cs[..i], x, y) + (if cs[i].button == Point(x, y) then [cs[i].clone] else [])
  {
    assert cs[..i + 1] == cs[..i] + [cs[i]];
    LinkedClonersOrder(cs[..i], [cs[i]], x, y);
  }

  lemma LinkedCloneButtonsSnoc(cs: seq<Clone>, i: nat, x: int, y: int)
    requires i < |cs|
    ensures LinkedCloneButtons(cs[..i + 1], x, y)
         == LinkedCloneButtons(cs[..i], x, y) + (if cs[i].clone == Point(x, y) then [cs[i].button] else [])
  {
    assert cs[..i + 1] == cs[..i] + [cs[i]];
    LinkedCloneButtonsOrder(cs[..i], [cs[i]], x, y);
  }

  // ------------------------------------------------------------------
  // De-duplicating append (trapConnect, cloneConnect, addMover).
  // ------------------------------------------------------------------

  /** The list after appending `item` unless an identical entry is already present. */
  function Connected<T(==)>(list: seq<T>, item: T): seq<T> {
    if item in list then list else list + [item]
  }

  lemma ConnectedContains<T>(list: seq<T>, item: T)
    ensures item in Connected(list, item)
    ensures Connected(list, item)[..|list|] == list
    ensures |Connected(list, item)| == if item in list then |list| else |list| + 1
  {
  }

  lemma ConnectedIdempotent<T>(list: seq<T>, item: T)
    ensures Connected(Connected(list, item), item) == Connected(list, item)
  {
  }

  /** No entry occurs twice. */
  predicate Distinct<T(==)>(list: seq<T>) {
    forall i, j :: 0 <= i < j < |list| ==> list[i] != list[j]
  }

  lemma ConnectedKeepsDistinct<T>(list: seq<T>, item: T)
    requires Distinct(list)
    ensures Distinct(Connected(list, item))
  {
  }

  /** The linear scan both connect methods and addMover perform before appending. */
  method Scan<T(==)>(list: seq<T>, item: T) returns (found: bool)
    ensures found <==> item in list
  {
    var i := 0;
    while i < |list|
      invariant 0 <= i <= |list|
      invariant item !in list[..i]
    {
      if list[i] == item {
        return true;
      }
      i := i + 1;
    }
    assert list[..i] == list;
    return false;
  }
}
