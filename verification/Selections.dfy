/** Lists that hold what some positions give, in order: each once, and nothing else. */
module Selections {
  import opened Wrappers

  /** Entry `k` comes from position `at[k]`; these positions ascend, and they are all that give something. */
  ghost predicate SelectsAt<U>(n: nat, image: nat -> Option<U>, ys: seq<U>, at: seq<nat>) {
    && |at| == |ys|
    && (forall k | 0 <= k < |ys| :: at[k] < n && image(at[k]) == Some(ys[k]))
    && (forall j, k | 0 <= j < k < |ys| :: at[j] < at[k])
    && (forall i: nat | i < n && image(i).Some? :: i in at)
  }

  ghost predicate Selects<U>(n: nat, image: nat -> Option<U>, ys: seq<U>) {
    exists at :: SelectsAt(n, image, ys, at)
  }

  function Listed<U>(x: Option<U>): seq<U> {
    if x.Some? then [x.value] else []
  }

  /** What the positions below `n` give. */
  function Selected<U>(n: nat, image: nat -> Option<U>): seq<U> {
    if n == 0 then [] else Selected(n - 1, image) + Listed(image(n - 1))
  }

  function Positions<U>(n: nat, image: nat -> Option<U>): seq<nat> {
    if n == 0 then [] else Positions(n - 1, image) + (if image(n - 1).Some? then [n - 1] else [])
  }

  lemma {:induction false} PositionsGive<U>(n: nat, image: nat -> Option<U>)
    ensures |Positions(n, image)| == |Selected(n, image)|
    ensures forall k | 0 <= k < |Positions(n, image)| ::
      Positions(n, image)[k] < n && image(Positions(n, image)[k]) == Some(Selected(n, image)[k])
  {
    if n > 0 {
      PositionsGive(n - 1, image);
    }
  }

  lemma {:induction false} PositionsAscend<U>(n: nat, image: nat -> Option<U>)
    ensures forall k | 0 <= k < |Positions(n, image)| :: Positions(n, image)[k] < n
    ensures forall j, k | 0 <= j < k < |Positions(n, image)| :: Positions(n, image)[j] < Positions(n, image)[k]
  {
    if n > 0 {
      PositionsAscend(n - 1, image);
    }
  }

  lemma {:induction false} PositionsCover<U>(n: nat, image: nat -> Option<U>, i: nat)
    requires i < n && image(i).Some?
    ensures i in Positions(n, image)
  {
    if i < n - 1 {
      PositionsCover(n - 1, image, i);
    } else {
      assert Positions(n, image)[|Positions(n, image)| - 1] == i;
    }
  }

  lemma SelectedMeaning<U>(n: nat, image: nat -> Option<U>)
    ensures Selects(n, image, Selected(n, image))
  {
    PositionsGive(n, image);
    PositionsAscend(n, image);
    forall i: nat | i < n && image(i).Some? ensures i in Positions(n, image) {
      PositionsCover(n, image, i);
    }
    hide Positions, Selected;
    assert SelectsAt(n, image, Selected(n, image), Positions(n, image));
  }

  // ----- selections from the front, and alike

  lemma {:induction false} SelectedAlike<U>(n: nat, image: nat -> Option<U>, other: nat -> Option<U>)
    requires forall i: nat | i < n :: image(i) == other(i)
    ensures Selected(n, image) == Selected(n, other)
  {
    if n > 0 {
      SelectedAlike(n - 1, image, other);
    }
  }

  lemma {:induction false} SelectedFirst<U>(n: nat, image: nat -> Option<U>, tail: nat -> Option<U>)
    requires forall i: nat | i < n :: tail(i) == image(i + 1)
    ensures Selected(n + 1, image) == Listed(image(0)) + Selected(n, tail)
  {
    hide Listed;
    if n == 0 {
      assert Selected(0, image) == [];
      assert [] + Listed(image(0)) == Listed(image(0)) + [];
    } else {
      SelectedFirst(n - 1, image, tail);
      assert tail(n - 1) == image(n);
      assert Listed(image(0)) + Selected(n - 1, tail) + Listed(image(n))
          == Listed(image(0)) + (Selected(n - 1, tail) + Listed(image(n)));
    }
  }

  lemma {:induction false} SelectedJoins<U>(m: nat, n: nat, image: nat -> Option<U>, later: nat -> Option<U>)
    requires forall i: nat | i < n :: later(i) == image(m + i)
    ensures Selected(m + n, image) == Selected(m, image) + Selected(n, later)
  {
    hide Listed;
    if n == 0 {
      assert Selected(m, image) + [] == Selected(m, image);
    } else {
      SelectedJoins(m, n - 1, image, later);
      assert later(n - 1) == image(m + (n - 1));
      assert Selected(m, image) + Selected(n - 1, later) + Listed(later(n - 1))
          == Selected(m, image) + (Selected(n - 1, later) + Listed(later(n - 1)));
    }
  }
}
