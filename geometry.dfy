/** Integer rectangles of the atlas packer: containment and disjointness. */
module Geometry {

  /** A rectangle with its top-left corner at (x, y). Widths and heights are plain
      integers because the packer computes children that may come out negative
      before it filters them. */
  datatype Rect = Rect(x: int, y: int, width: int, height: int)

  /** The whole page, anchored at the origin. */
  function Page(width: int, height: int): Rect {
    Rect(0, 0, width, height)
  }

  predicate NonNegative(r: Rect) {
    r.width >= 0 && r.height >= 0
  }

  /** `a` lies inside `b`. */
  predicate Inside(a: Rect, b: Rect) {
    b.x <= a.x && a.x + a.width <= b.x + b.width &&
    b.y <= a.y && a.y + a.height <= b.y + b.height
  }

  /** `a` and `b` share no interior point: one lies wholly to one side of the other. */
  predicate Disjoint(a: Rect, b: Rect) {
    a.x + a.width <= b.x || b.x + b.width <= a.x ||
    a.y + a.height <= b.y || b.y + b.height <= a.y
  }

  /** No two rectangles of `rs` overlap. */
  ghost predicate PairwiseDisjoint(rs: seq<Rect>) {
    forall i, j :: 0 <= i < j < |rs| ==> Disjoint(rs[i], rs[j])
  }

  /** Every rectangle of `a` is disjoint from every rectangle of `b`. */
  ghost predicate Separated(a: seq<Rect>, b: seq<Rect>) {
    forall i, j :: 0 <= i < |a| && 0 <= j < |b| ==> Disjoint(a[i], b[j])
  }

  /** `r` is disjoint from every rectangle of `rs`. */
  ghost predicate ApartFrom(r: Rect, rs: seq<Rect>) {
    forall i :: 0 <= i < |rs| ==> Disjoint(r, rs[i])
  }

  /** Shrinking a rectangle keeps it apart from whatever it was apart from. */
  lemma InsideKeepsApart(a: Rect, b: Rect, rs: seq<Rect>)
    requires Inside(a, b) && ApartFrom(b, rs)
    ensures ApartFrom(a, rs)
  {
    forall i | 0 <= i < |rs| ensures Disjoint(a, rs[i]) {
      assert Disjoint(b, rs[i]);
    }
  }

  /** Two pairwise-disjoint families that are separated from each other form a
      pairwise-disjoint family. */
  lemma {:induction false} JoinDisjoint(a: seq<Rect>, b: seq<Rect>)
    requires PairwiseDisjoint(a) && PairwiseDisjoint(b) && Separated(a, b)
    ensures PairwiseDisjoint(a + b)
  {
    var ab := a + b;
    forall i, j | 0 <= i < j < |ab| ensures Disjoint(ab[i], ab[j]) {
      if j < |a| {
        assert ab[i] == a[i] && ab[j] == a[j];
      } else if i < |a| {
        assert ab[i] == a[i] && ab[j] == b[j - |a|];
      } else {
        assert ab[i] == b[i - |a|] && ab[j] == b[j - |a|];
      }
    }
  }

  /** A family is separated from a concatenation exactly when it is separated from both parts. */
  lemma SeparatedAppend(a: seq<Rect>, b: seq<Rect>, c: seq<Rect>)
    requires Separated(a, b) && Separated(a, c)
    ensures Separated(a, b + c)
  {
    var bc := b + c;
    forall i, j | 0 <= i < |a| && 0 <= j < |bc| ensures Disjoint(a[i], bc[j]) {
      if j < |b| { assert bc[j] == b[j]; } else { assert bc[j] == c[j - |b|]; }
    }
  }

  /** Two families are separated when each of two parts of the first is separated from the second. */
  lemma SeparatedPrepend(a: seq<Rect>, b: seq<Rect>, c: seq<Rect>)
    requires Separated(a, c) && Separated(b, c)
    ensures Separated(a + b, c)
  {
    var ab := a + b;
    forall i, j | 0 <= i < |ab| && 0 <= j < |c| ensures Disjoint(ab[i], c[j]) {
      if i < |a| { assert ab[i] == a[i]; } else { assert ab[i] == b[i - |a|]; }
    }
  }

  /** The packer's step on rectangles: the free rectangle `n` at the head of `free`
      is replaced by a piece `p` (moved to `placed`) and by children `kids` (appended
      to `free`), all of them inside `n`, the children disjoint from `p` and from each
      other. Then placed and free rectangles stay pairwise disjoint. */
  lemma {:induction false} ReplaceByParts(placed: seq<Rect>, free: seq<Rect>, p: Rect, kids: seq<Rect>)
    requires free != []
    requires PairwiseDisjoint(placed) && PairwiseDisjoint(free) && Separated(placed, free)
    requires Inside(p, free[0])
    requires forall k :: 0 <= k < |kids| ==> Inside(kids[k], free[0])
    requires ApartFrom(p, kids) && PairwiseDisjoint(kids)
    ensures PairwiseDisjoint(placed + [p])
    ensures PairwiseDisjoint(free[1..] + kids)
    ensures Separated(placed + [p], free[1..] + kids)
  {
    var n, rest := free[0], free[1..];
    // n is apart from the other free rectangles and from every placed one
    assert ApartFrom(n, rest) by {
      forall j | 0 <= j < |rest| ensures Disjoint(n, rest[j]) { assert rest[j] == free[j + 1]; }
    }
    assert ApartFrom(n, placed) by {
      forall i | 0 <= i < |placed| ensures Disjoint(n, placed[i]) { assert Disjoint(placed[i], free[0]); }
    }
    assert PairwiseDisjoint(rest) by {
      forall i, j | 0 <= i < j < |rest| ensures Disjoint(rest[i], rest[j]) {
        assert rest[i] == free[i + 1] && rest[j] == free[j + 1];
      }
    }
    assert Separated(placed, rest) by {
      forall i, j | 0 <= i < |placed| && 0 <= j < |rest| ensures Disjoint(placed[i], rest[j]) {
        assert rest[j] == free[j + 1];
      }
    }
    InsideKeepsApart(p, n, placed);
    InsideKeepsApart(p, n, rest);
    forall k | 0 <= k < |kids| ensures ApartFrom(kids[k], placed) && ApartFrom(kids[k], rest) {
      InsideKeepsApart(kids[k], n, placed);
      InsideKeepsApart(kids[k], n, rest);
    }
    assert Separated(placed, [p]);
    JoinDisjoint(placed, [p]);
    assert Separated(rest, kids);
    JoinDisjoint(rest, kids);
    assert Separated(placed, kids);
    SeparatedAppend(placed, rest, kids);
    assert Separated([p], rest);
    assert Separated([p], kids);
    SeparatedAppend([p], rest, kids);
    SeparatedPrepend(placed, [p], rest + kids);
  }
}
