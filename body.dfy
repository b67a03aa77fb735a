/**
  The snake's body and its pending growth as sequences of cell identifiers:
  the one-cell move, the array filters the game applies, the growth that
  absorbs eaten apples, and the random choice of a free cell for the apple.
 */
module Body {
  import opened Wrappers
  import opened Random

  /** No cell occurs twice. */
  predicate NoDup(s: seq<int>)
  {
    forall i, j :: 0 <= i < j < |s| ==> s[i] != s[j]
  }

  /** The snake after one move into `next`: the tail is dropped and `next` becomes the head (`slice(1)` of an empty array is empty). */
  function Moved(snake: seq<int>, next: int): seq<int>
  {
    (if snake == [] then [] else snake[1..]) + [next]
  }

  /** The cells of `s` that `body` does not occupy, in their order in `s` (`s.filter(c => !body.includes(c))`). */
  function Unoccupied(s: seq<int>, body: seq<int>): seq<int>
  {
    if s == [] then []
    else
      var init, last := s[..|s| - 1], s[|s| - 1];
      Unoccupied(init, body) + (if last in body then [] else [last])
  }

  /** The cells of `s` that `body` occupies, in their order in `s`. */
  function Occupied(s: seq<int>, body: seq<int>): seq<int>
  {
    if s == [] then []
    else
      var init, last := s[..|s| - 1], s[|s| - 1];
      Occupied(init, body) + (if last in body then [last] else [])
  }

  /**
    The segments grown from the pending cells `s` while `body` is the moved
    snake: each pending cell that `body` does not occupy is put in front of
    the tail, so the one handled last ends up first.
   */
  function Absorbed(s: seq<int>, body: seq<int>): seq<int>
  {
    if s == [] then []
    else
      var init, last := s[..|s| - 1], s[|s| - 1];
      (if last in body then [] else [last]) + Absorbed(init, body)
  }

  /** `s` without any occurrence of `x` (`s.filter(e => e !== x)`). */
  function RemoveAll(s: seq<int>, x: int): seq<int>
  {
    if s == [] then []
    else (if s[0] == x then [] else [s[0]]) + RemoveAll(s[1..], x)
  }

  /**
    The apple `generateApple` places: the free cell at the random index, or
    none when the index falls outside the free cells (JavaScript reads
    `undefined` there), which happens exactly on a full board.
   */
  function PickApple(cells: seq<int>, snake: seq<int>, rand: real): (apple: Option<int>)
    requires 0.0 <= rand < 1.0
    ensures apple.Some? ==> apple.value in cells && apple.value !in snake
    ensures apple.None? ==> forall c :: c in cells ==> c in snake
  {
    var empty := Unoccupied(cells, snake);
    var i := RandomIndex(rand, |empty|);
    if i < |empty| then
      UnoccupiedAt(cells, snake, i);
      Some(empty[i])
    else
      NoneUnoccupied(cells, snake);
      None
  }

  // ---------------------------------------------------------------------
  // Lemmas

  /** A sequence is its prefix followed by its last element, membership included. */
  lemma SplitLast(s: seq<int>)
    requires s != []
    ensures s == s[..|s| - 1] + [s[|s| - 1]]
    ensures forall x :: x in s <==> x in s[..|s| - 1] || x == s[|s| - 1]
  {
  }

  /** The free cells are exactly the cells of `s` outside `body`. */
  lemma {:induction false} UnoccupiedCells(s: seq<int>, body: seq<int>)
    ensures forall x :: x in Unoccupied(s, body) <==> x in s && x !in body
  {
    if s != [] {
      SplitLast(s);
      UnoccupiedCells(s[..|s| - 1], body);
    }
  }

  /** Membership in the absorbed cells, for one cell. */
  lemma AbsorbedMember(s: seq<int>, body: seq<int>, x: int)
    ensures x in Absorbed(s, body) <==> x in s && x !in body
  {
    AbsorbedCells(s, body);
  }

  /** Membership in the still-pending cells, for one cell. */
  lemma OccupiedMember(s: seq<int>, body: seq<int>, x: int)
    ensures x in Occupied(s, body) <==> x in s && x in body
  {
    OccupiedCells(s, body);
  }

  /** A free cell picked by index is a cell of `s` outside `body`. */
  lemma UnoccupiedAt(s: seq<int>, body: seq<int>, i: int)
    requires 0 <= i < |Unoccupied(s, body)|
    ensures Unoccupied(s, body)[i] in s && Unoccupied(s, body)[i] !in body
  {
    UnoccupiedCells(s, body);
    assert Unoccupied(s, body)[i] in Unoccupied(s, body);
  }

  /** With no free cell left, `body` covers every cell of `s`. */
  lemma NoneUnoccupied(s: seq<int>, body: seq<int>)
    requires Unoccupied(s, body) == []
    ensures forall c :: c in s ==> c in body
  {
    UnoccupiedCells(s, body);
  }

  /** The still-pending cells are exactly the cells of `s` inside `body`, and none repeats if `s` has no repeats. */
  lemma {:induction false} OccupiedCells(s: seq<int>, body: seq<int>)
    ensures forall x :: x in Occupied(s, body) <==> x in s && x in body
    ensures NoDup(s) ==> NoDup(Occupied(s, body))
  {
    if s != [] {
      var init, last := s[..|s| - 1], s[|s| - 1];
      SplitLast(s);
      OccupiedCells(init, body);
      if NoDup(s) {
        NoDupConcat(Occupied(init, body), if last in body then [last] else []);
      }
    }
  }

  /** The absorbed cells are exactly the cells of `s` outside `body`, and none repeats if `s` has no repeats. */
  lemma {:induction false} AbsorbedCells(s: seq<int>, body: seq<int>)
    ensures forall x :: x in Absorbed(s, body) <==> x in s && x !in body
    ensures NoDup(s) ==> NoDup(Absorbed(s, body))
  {
    if s != [] {
      var init, last := s[..|s| - 1], s[|s| - 1];
      SplitLast(s);
      AbsorbedCells(init, body);
      if NoDup(s) {
        NoDupConcat(if last in body then [] else [last], Absorbed(init, body));
      }
    }
  }

  /** Moving into a cell the snake does not occupy keeps the body free of duplicates, keeps its length, and puts `next` at the head. */
  lemma MoveKeepsDistinct(snake: seq<int>, next: int)
    requires snake != [] && NoDup(snake) && next !in snake
    ensures NoDup(Moved(snake, next))
    ensures |Moved(snake, next)| == |snake|
    ensures Moved(snake, next)[|snake| - 1] == next
    ensures forall x :: x in Moved(snake, next) <==> x == next || (x in snake && x != snake[0])
  {
    var m := Moved(snake, next);
    assert m == snake[1..] + [next];
    forall x | x in snake && x != snake[0]
      ensures x in snake[1..]
    {
      var k :| 0 <= k < |snake| && snake[k] == x;
      assert snake[1..][k - 1] == x;
    }
  }

  /** Every pending cell is either absorbed or stays pending: `|absorbed| + |still pending| == |pending|`. */
  lemma {:induction false} GrowthAccounting(s: seq<int>, body: seq<int>)
    ensures |Absorbed(s, body)| + |Occupied(s, body)| == |s|
  {
    if s != [] {
      GrowthAccounting(s[..|s| - 1], body);
    }
  }

  /** Disjoint duplicate-free sequences concatenate to a duplicate-free sequence. */
  lemma NoDupConcat(a: seq<int>, b: seq<int>)
    requires NoDup(a) && NoDup(b)
    requires forall x :: x in a ==> x !in b
    ensures NoDup(a + b)
  {
    var c := a + b;
    forall i, j | 0 <= i < j < |c|
      ensures c[i] != c[j]
    {
      if i < |a| && j >= |a| {
        assert c[i] in a && c[j] == b[j - |a|];
      }
    }
  }

  /** Growing the moved snake by the absorbed pending cells keeps it free of duplicates. */
  lemma AbsorbKeepsDistinct(pending: seq<int>, body: seq<int>)
    requires NoDup(pending) && NoDup(body)
    ensures NoDup(Absorbed(pending, body) + body)
  {
    AbsorbedCells(pending, body);
    NoDupConcat(Absorbed(pending, body), body);
  }

  /**
    An apple that is neither in the old snake nor pending is covered by the
    grown snake exactly when the head moved onto it.
   */
  lemma CoveredOnlyByHead(snake: seq<int>, pending: seq<int>, next: int, apple: int)
    requires snake != []
    requires apple !in snake && apple !in pending
    ensures apple in Absorbed(pending, Moved(snake, next)) + Moved(snake, next) <==> apple == next
  {
    assert Moved(snake, next) == snake[1..] + [next];
    AbsorbedCells(pending, Moved(snake, next));
  }

  /** Handling one more pending cell extends the absorbed and the still-pending cells by that cell, on the side each grows. */
  lemma AbsorbStep(pending: seq<int>, i: int, body: seq<int>)
    requires 0 <= i < |pending|
    ensures Absorbed(pending[..i + 1], body) ==
      (if pending[i] in body then [] else [pending[i]]) + Absorbed(pending[..i], body)
    ensures Occupied(pending[..i + 1], body) ==
      Occupied(pending[..i], body) + (if pending[i] in body then [pending[i]] else [])
  {
    assert pending[..i + 1][..i] == pending[..i];
  }

  /**
    While the first `i` pending cells have been handled, the `i`-th (which
    occurs nowhere else) is in the grown snake exactly when it is in the
    moved one.
   */
  lemma PendingInGrown(pending: seq<int>, i: int, moved: seq<int>)
    requires 0 <= i < |pending| && pending[i] !in pending[..i]
    ensures pending[i] in Absorbed(pending[..i], moved) + moved <==> pending[i] in moved
  {
    AbsorbedMember(pending[..i], moved, pending[i]);
  }

  /**
    One pass of the growth loop that absorbs the `i`-th pending cell: put in
    front of the grown snake, it gives the grown snake for `i + 1` handled
    cells.
   */
  lemma GrowOne(pending: seq<int>, i: int, moved: seq<int>)
    requires 0 <= i < |pending| && pending[i] !in moved
    ensures [pending[i]] + (Absorbed(pending[..i], moved) + moved) == Absorbed(pending[..i + 1], moved) + moved
  {
    AbsorbStep(pending, i, moved);
  }

  /**
    The same pass drops the absorbed cell, which occurs once among the
    pending cells, and leaves the pending cells for `i + 1` handled cells.
   */
  lemma DropOne(pending: seq<int>, i: int, moved: seq<int>)
    requires 0 <= i < |pending| && pending[i] !in moved
    requires pending[i] !in pending[..i] && pending[i] !in pending[i + 1..]
    ensures RemoveAll(Occupied(pending[..i], moved) + pending[i..], pending[i]) ==
      Occupied(pending[..i + 1], moved) + pending[i + 1..]
  {
    var e, kept, rest := pending[i], Occupied(pending[..i], moved), pending[i + 1..];
    assert Occupied(pending[..i + 1], moved) == kept by {
      AbsorbStep(pending, i, moved);
    }
    assert kept + pending[i..] == kept + [e] + rest by {
      assert pending[i..] == [e] + rest;
    }
    OccupiedMember(pending[..i], moved, e);
    RemoveSingle(kept, e, rest);
  }

  /**
    One pass of the growth loop that finds the `i`-th pending cell occupied:
    the snake is unchanged and the cell stays pending, which is the loop's
    state for `i + 1` handled cells.
   */
  lemma KeepOne(pending: seq<int>, i: int, moved: seq<int>)
    requires 0 <= i < |pending| && pending[i] in moved
    ensures Absorbed(pending[..i], moved) == Absorbed(pending[..i + 1], moved)
    ensures Occupied(pending[..i], moved) + pending[i..] ==
      Occupied(pending[..i + 1], moved) + pending[i + 1..]
  {
    AbsorbStep(pending, i, moved);
    assert pending[i..] == [pending[i]] + pending[i + 1..];
  }

  /** A cell of a duplicate-free sequence occurs neither before nor after its own position. */
  lemma NoDupAt(s: seq<int>, i: int)
    requires NoDup(s) && 0 <= i < |s|
    ensures s[i] !in s[..i] && s[i] !in s[i + 1..]
  {
  }

  /** Removing an absent cell changes nothing. */
  lemma {:induction false} RemoveAbsent(s: seq<int>, x: int)
    requires x !in s
    ensures RemoveAll(s, x) == s
  {
    if s != [] {
      RemoveAbsent(s[1..], x);
    }
  }

  /** Removing a cell that occurs once, between cells that differ from it, leaves the cells around it. */
  lemma {:induction false} RemoveSingle(a: seq<int>, x: int, b: seq<int>)
    requires x !in a && x !in b
    ensures RemoveAll(a + [x] + b, x) == a + b
  {
    var s := a + [x] + b;
    if a == [] {
      assert s[0] == x && s[1..] == b;
      RemoveAbsent(b, x);
    } else {
      assert s[0] == a[0] && s[1..] == a[1..] + [x] + b;
      RemoveSingle(a[1..], x, b);
      assert a + b == [a[0]] + (a[1..] + b);
    }
  }
}
