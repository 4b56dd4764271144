/** The cursor arithmetic of the gallery page: the wrap-around formula of
    `showImage` and the moves made by the previous and next buttons. */
module Cursor {
  import opened JsMath

  /** The cursor `showImage(index)` settles on in a list of `n` images:
      `((index % n) + n) % n` with JavaScript's truncating `%`. Whatever the
      sign of `index`, this is the floor-modulo residue, so it lies in
      [0, n) and leaves an index already in range alone. */
  function Normalize(index: int, n: int): (r: int)
    requires n > 0
    ensures 0 <= r < n
    ensures r == index % n
    ensures 0 <= index < n ==> r == index
  {
    var t := JsRem(index, n);
    ModShift(t, 1, n);
    ModInRange(index, n);
    JsRem(t + n, n)
  }

  /** Moving the requested index by whole turns of the list shows the same image. */
  lemma {:induction false} NormalizePeriodic(index: int, k: int, n: int)
    requires n > 0
    ensures Normalize(index + k * n, n) == Normalize(index, n)
  {
    ModShift(index, k, n);
  }

  /** The cursor after a click on "next" from cursor `c`: the handler stores
      `(c + 1) % n` and `showImage` normalises it. */
  function Next(c: int, n: int): (r: int)
    requires n > 0
    ensures 0 <= r < n
    ensures r == (c + 1) % n
  {
    Normalize(JsRem(c + 1, n), n)
  }

  /** The cursor after a click on "previous" from cursor `c`: the handler
      stores `(c - 1 + n) % n` and `showImage` normalises it. */
  function Prev(c: int, n: int): (r: int)
    requires n > 0
    ensures 0 <= r < n
    ensures r == (c - 1) % n
  {
    ModShift(c - 1, 1, n);
    Normalize(JsRem(c - 1 + n, n), n)
  }

  /** "previous" undoes "next". */
  lemma {:induction false} PrevAfterNext(c: int, n: int)
    requires 0 <= c < n
    ensures Prev(Next(c, n), n) == c
  {
    ModAddMod(c + 1, -1, n);
    ModInRange(c, n);
  }

  /** "next" undoes "previous". */
  lemma {:induction false} NextAfterPrev(c: int, n: int)
    requires 0 <= c < n
    ensures Next(Prev(c, n), n) == c
  {
    ModAddMod(c - 1, 1, n);
    ModInRange(c, n);
  }

  /** The cursor after `k` clicks on "next" starting from `c`. */
  function Nexts(c: int, n: int, k: nat): int
    requires n > 0
  {
    if k == 0 then c else Next(Nexts(c, n, k - 1), n)
  }

  /** `k` clicks on "next" advance the cursor by `k` modulo the length. */
  lemma {:induction false} NextsAdvance(c: int, n: int, k: nat)
    requires 0 <= c < n
    ensures Nexts(c, n, k) == (c + k) % n
  {
    if k == 0 {
      ModInRange(c, n);
    } else {
      NextsAdvance(c, n, k - 1);
      ModAddMod(c + k - 1, 1, n);
    }
  }

  /** `n` clicks on "next" come back to the starting image. */
  lemma {:induction false} NextsFullTurn(c: int, n: int)
    requires 0 <= c < n
    ensures Nexts(c, n, n) == c
  {
    NextsAdvance(c, n, n);
    ModShift(c, 1, n);
    ModInRange(c, n);
  }
}
