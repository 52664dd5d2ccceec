/**
 * The recipe photo gallery: a one, two or three-tile layout with a
 * "+k more" overlay, and a full-screen viewer that steps through the photos
 * cyclically.
 */
module ImageGallery {
  import opened JsText

  /** JavaScript's `%` on integers: the remainder takes the sign of the dividend. */
  function JsRem(a: int, n: int): (r: int)
    requires n > 0
    ensures a >= 0 ==> r == a % n
    ensures a < 0 ==> -n < r <= 0
  {
    if a >= 0 then a % n else -((-a) % n)
  }

  /** `nextImage`: `(i + 1) % n`. */
  function NextIndex(i: int, n: int): int
    requires n > 0
  {
    JsRem(i + 1, n)
  }

  /** `prevImage`: `(i - 1 + n) % n`. */
  function PrevIndex(i: int, n: int): int
    requires n > 0
  {
    JsRem(i - 1 + n, n)
  }

  /** From a shown photo, next stays among the photos and wraps from the last to the first. */
  lemma NextWraps(i: int, n: int)
    requires 0 <= i < n
    ensures 0 <= NextIndex(i, n) < n
    ensures NextIndex(i, n) == if i == n - 1 then 0 else i + 1
  {
  }

  /** From a shown photo, previous stays among the photos and wraps from the first to the last. */
  lemma PrevWraps(i: int, n: int)
    requires 0 <= i < n
    ensures 0 <= PrevIndex(i, n) < n
    ensures PrevIndex(i, n) == if i == 0 then n - 1 else i - 1
  {
  }

  /** Previous undoes next, and next undoes previous. */
  lemma PrevUndoesNext(i: int, n: int)
    requires 0 <= i < n
    ensures PrevIndex(NextIndex(i, n), n) == i
    ensures NextIndex(PrevIndex(i, n), n) == i
  {
    NextWraps(i, n);
    PrevWraps(i, n);
    NextWraps(PrevIndex(i, n), n);
    PrevWraps(NextIndex(i, n), n);
  }

  /** `k` presses of next in a row. */
  function NextTimes(i: int, n: int, k: nat): int
    requires n > 0
  {
    if k == 0 then i else NextIndex(NextTimes(i, n, k - 1), n)
  }

  /**
   * Up to `n` presses of next move `k` places round the cycle, wrapping
   * past the last photo once; `n` presses come back to the start.
   */
  lemma {:induction false} NextTimesCycle(i: int, n: int, k: nat)
    requires 0 <= i < n && k <= n
    ensures NextTimes(i, n, k) == if i + k < n then i + k else i + k - n
    ensures k == n ==> NextTimes(i, n, k) == i
  {
    if k > 0 {
      NextTimesCycle(i, n, k - 1);
      NextWraps(NextTimes(i, n, k - 1), n);
    }
  }

  /** How the photos are laid out before the viewer opens. */
  datatype Layout = Single | Pair | Grid(more: Option<nat>)

  /** The photos the layout shows as tiles. */
  function Tiles(l: Layout): nat {
    match l
    case Single => 1
    case Pair => 2
    case Grid(_) => 3
  }

  /** The layout for `n` photos: nothing for none; the "+k more" overlay over the third tile when `k = n - 3` is positive. */
  function LayoutOf(n: nat): Option<Layout> {
    if n == 0 then None
    else if n == 1 then Some(Single)
    else if n == 2 then Some(Pair)
    else
      var remainingCount := n - 3;
      Some(Grid(if remainingCount > 0 then Some(remainingCount) else None))
  }

  /**
   * Nothing renders without photos; otherwise every photo is a tile or is
   * counted by the overlay, and the overlay appears exactly when more
   * than three photos exist.
   */
  lemma LayoutAccounts(n: nat)
    ensures LayoutOf(n).None? <==> n == 0
    ensures LayoutOf(n).Some? ==>
      var l := LayoutOf(n).value;
      && Tiles(l) <= n
      && (l.Grid? && l.more.Some? <==> n > 3)
      && Tiles(l) + (if l.Grid? && l.more.Some? then l.more.value else 0) == n
  {
  }

  /** The "i / n" counter of the viewer; shown only with more than one photo. */
  function Counter(i: int, n: nat): (c: Option<string>)
    requires 0 <= i < n
    ensures c.Some? <==> n > 1
  {
    if n > 1 then Some(NatToString(i + 1) + " / " + NatToString(n)) else None
  }

  /** The counter reads the one-based position, then the number of photos. */
  lemma CounterReads(i: int, n: nat)
    requires 0 <= i < n && n > 1
    ensures var c := Counter(i, n).value; var k := |NatToString(i + 1)|;
      && k + 3 <= |c| && c[k..k + 3] == " / "
      && DecimalValue(c[..k]) == i + 1 && DecimalValue(c[k + 3..]) == n
  {
    var a, b := NatToString(i + 1), NatToString(n);
    var c := a + " / " + b;
    assert c[..|a|] == a && c[|a|..|a| + 3] == " / " && c[|a| + 3..] == b;
    NatToStringValue(i + 1);
    NatToStringValue(n);
  }

  /** The viewer's state over a fixed list of photos. */
  class Gallery {
    const images: seq<string>
    var isModalOpen: bool
    var currentImageIndex: int

    /** The viewer's index names one of the photos. */
    ghost predicate Valid()
      reads this
    {
      0 <= currentImageIndex < |images|
    }

    constructor (images: seq<string>)
      ensures this.images == images && !isModalOpen && currentImageIndex == 0
      ensures |images| > 0 ==> Valid()
    {
      this.images := images;
      isModalOpen := false;
      currentImageIndex := 0;
    }

    /** `openModal(index)`: a click on a tile. */
    method Open(index: int)
      modifies this
      ensures isModalOpen && currentImageIndex == index
      ensures 0 <= index < |images| ==> Valid()
    {
      currentImageIndex := index;
      isModalOpen := true;
    }

    /** `closeModal`: only the open flag changes. */
    method Close()
      modifies this
      ensures !isModalOpen && currentImageIndex == old(currentImageIndex)
    {
      isModalOpen := false;
    }

    /** A click on a thumbnail of the viewer. */
    method Select(index: int)
      modifies this
      ensures currentImageIndex == index && isModalOpen == old(isModalOpen)
      ensures 0 <= index < |images| ==> Valid()
    {
      currentImageIndex := index;
    }

    /** The handlers exist only once the photos render, so there is at least one photo here. */
    method Next()
      requires |images| > 0
      modifies this
      ensures currentImageIndex == NextIndex(old(currentImageIndex), |images|)
      ensures isModalOpen == old(isModalOpen)
      ensures old(Valid()) ==> Valid()
    {
      if Valid() { NextWraps(currentImageIndex, |images|); }
      currentImageIndex := NextIndex(currentImageIndex, |images|);
    }

    method Prev()
      requires |images| > 0
      modifies this
      ensures currentImageIndex == PrevIndex(old(currentImageIndex), |images|)
      ensures isModalOpen == old(isModalOpen)
      ensures old(Valid()) ==> Valid()
    {
      if Valid() { PrevWraps(currentImageIndex, |images|); }
      currentImageIndex := PrevIndex(currentImageIndex, |images|);
    }

    /** `handleKeyDown`: Escape closes, the arrow keys step, any other key does nothing. */
    method KeyDown(key: string)
      requires |images| > 0
      modifies this
      ensures key == "Escape" ==> !isModalOpen && currentImageIndex == old(currentImageIndex)
      ensures key == "ArrowRight" ==>
        isModalOpen == old(isModalOpen) && currentImageIndex == NextIndex(old(currentImageIndex), |images|)
      ensures key == "ArrowLeft" ==>
        isModalOpen == old(isModalOpen) && currentImageIndex == PrevIndex(old(currentImageIndex), |images|)
      ensures key != "Escape" && key != "ArrowRight" && key != "ArrowLeft" ==>
        isModalOpen == old(isModalOpen) && currentImageIndex == old(currentImageIndex)
      ensures old(Valid()) ==> Valid()
    {
      if key == "Escape" {
        Close();
      }
      if key == "ArrowRight" {
        Next();
      }
      if key == "ArrowLeft" {
        Prev();
      }
    }
  }
}
