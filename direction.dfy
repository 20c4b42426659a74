/** The direction latch of `_snake.set_dir`: the arrow keys pick a plane and a
    signed step; the tick reads whatever was set last. */
module Direction {

  datatype Plane = X | Y

  /** The movement state the tick reads: `plane` and `active_delta`. */
  datatype Heading = Heading(plane: Plane, activeDelta: int)

  /** A key map lookup: the heading of an arrow key, or nothing. */
  datatype MaybeHeading = None | Some(value: Heading)

  const KeyLeft: int := 37
  const KeyUp: int := 38
  const KeyRight: int := 39
  const KeyDown: int := 40

  /** The fixed key map, built from the configured step `delta`. */
  function KeyMap(key: int, delta: int): (h: MaybeHeading)
    ensures h.Some? ==> h.value.activeDelta == delta || h.value.activeDelta == -delta
  {
    if key == KeyLeft then Some(Heading(X, -delta))
    else if key == KeyUp then Some(Heading(Y, -delta))
    else if key == KeyRight then Some(Heading(X, delta))
    else if key == KeyDown then Some(Heading(Y, delta))
    else None
  }

  /** The heading after a key press: the mapped heading for an arrow key,
      the old heading for any other key. */
  function Steer(h: Heading, key: int, delta: int): (r: Heading)
    ensures KeyMap(key, delta).Some? ==> r == KeyMap(key, delta).value
    ensures KeyMap(key, delta).None? ==> r == h
  {
    match KeyMap(key, delta)
    case Some(h') => h'
    case None => h
  }

  /** Only the four arrow keys are mapped. */
  lemma KeyMapDomain(key: int, delta: int)
    ensures KeyMap(key, delta).Some? <==> KeyLeft <= key <= KeyDown
  {
  }

  /** Left and right move along x, up and down along y; left and up step
      back by delta, right and down forward. */
  lemma KeyMapEntries(delta: int)
    ensures KeyMap(KeyLeft, delta) == Some(Heading(X, -delta))
    ensures KeyMap(KeyUp, delta) == Some(Heading(Y, -delta))
    ensures KeyMap(KeyRight, delta) == Some(Heading(X, delta))
    ensures KeyMap(KeyDown, delta) == Some(Heading(Y, delta))
  {
  }

  /** With a non-zero step, distinct arrow keys give distinct headings. */
  lemma KeyMapInjective(k1: int, k2: int, delta: int)
    requires delta != 0
    requires KeyMap(k1, delta).Some? && KeyMap(k1, delta) == KeyMap(k2, delta)
    ensures k1 == k2
  {
  }

  /** The key that produces a heading of step size `delta`, if any: the inverse of the key map. */
  function KeyFor(h: Heading, delta: int): (key: int)
  {
    match h.plane
    case X => if h.activeDelta == delta then KeyRight else KeyLeft
    case Y => if h.activeDelta == delta then KeyDown else KeyUp
  }

  /** Every heading whose step is plus or minus delta comes from exactly one key. */
  lemma KeyForInverse(h: Heading, delta: int)
    requires h.activeDelta == delta || h.activeDelta == -delta
    ensures KeyMap(KeyFor(h, delta), delta) == Some(h)
  {
  }

  /** Every arrow key with a non-zero step is recovered from its heading. */
  lemma KeyMapInverse(key: int, delta: int)
    requires delta != 0 && KeyMap(key, delta).Some?
    ensures KeyFor(KeyMap(key, delta).value, delta) == key
  {
  }

  /** A key that is not an arrow leaves the heading alone. */
  lemma SteerIgnores(h: Heading, key: int, delta: int)
    requires !(KeyLeft <= key <= KeyDown)
    ensures Steer(h, key, delta) == h
  {
  }

  /** Pressing the same key twice is the same as pressing it once. */
  lemma SteerIdempotent(h: Heading, key: int, delta: int)
    ensures Steer(Steer(h, key, delta), key, delta) == Steer(h, key, delta)
  {
  }

  /** The latch keeps only the last arrow key: an earlier press is overwritten. */
  lemma SteerLatest(h: Heading, k1: int, k2: int, delta: int)
    requires KeyLeft <= k2 <= KeyDown
    ensures Steer(Steer(h, k1, delta), k2, delta) == Steer(h, k2, delta)
  {
  }
}
