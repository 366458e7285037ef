/** The photo gallery: a thumbnail grid and a full-screen lightbox with
    wrap-around navigation, keyboard and pointer controls, and a page scroll
    lock held while the lightbox is open. */
module Gallery {
  import opened JsPrimitives

  datatype Image = Image(src: string, alt: Option<string>)

  /** `clamp(i, n)`: the wrap-around index. An empty gallery gives 0 without
      dividing; otherwise `(i + n) % n` with JavaScript's truncating `%`, which
      wraps an index at most one lap below zero into `[0, n)` and leaves
      anything further below non-positive. */
  function Clamp(i: int, n: int): (r: int)
    ensures n <= 0 ==> r == 0
    ensures n > 0 && 0 <= i < n ==> r == i
    ensures n > 0 && n <= i < 2 * n ==> r == i - n
    ensures n > 0 && -n <= i < 0 ==> r == i + n
    ensures n > 0 && i >= -n ==> 0 <= r < n
    ensures n > 0 && i < -n ==> -n < r <= 0
    ensures n > 0 && i >= -n ==> r == i % n
  {
    if n <= 0 then 0
    else
      var a := i + n;
      assert a >= 0 ==> a % n == i % n by {
        if a >= 0 {
          ModOf(a, n, a / n, a % n);
          ModOf(i, n, a / n - 1, a % n);
        }
      }
      assert 0 <= a < n ==> a % n == a by {
        if 0 <= a < n { ModOf(a, n, 0, a); }
      }
      assert n <= a < 2 * n ==> a % n == a - n by {
        if n <= a < 2 * n { ModOf(a, n, 1, a - n); }
      }
      assert 2 * n <= a < 3 * n ==> a % n == a - 2 * n by {
        if 2 * n <= a < 3 * n { ModOf(a, n, 2, a - 2 * n); }
      }
      TruncRem(a, n)
  }

  /** What `document.body.style.overflow` is set to while the lightbox is open. */
  const Hidden: string := "hidden"

  /** The component's state together with the page-wide body overflow it
      locks: `open` and `index` are React state, `overflow` is the body's
      style, and `saved` is the value the scroll-lock effect captured while it
      is in force. */
  datatype GalleryState = GalleryState(open: bool, index: int, overflow: string, saved: Option<string>)

  /** A freshly mounted gallery on a page whose body overflow is `overflow`. */
  function Init(overflow: string): GalleryState
  {
    GalleryState(false, 0, overflow, None)
  }

  /** Commit a new `open` value. When it flips, the scroll-lock effect runs:
      its set-up saves the body overflow and hides it, its clean-up puts the
      saved value back. */
  function SetOpen(s: GalleryState, open: bool): (s': GalleryState)
    ensures s'.open == open && s'.index == s.index
    ensures open == s.open ==> s' == s
    ensures open && !s.open ==> s'.overflow == Hidden && s'.saved == Some(s.overflow)
    ensures !open && s.open ==>
      s'.saved == None && s'.overflow == (if s.saved.Some? then s.saved.value else s.overflow)
  {
    if open == s.open then s
    else if open then s.(open := true, overflow := Hidden, saved := Some(s.overflow))
    else
      var restored := match s.saved
        case Some(v) => v
        case None => s.overflow;
      s.(open := false, overflow := restored, saved := None)
  }

  /** `close`. */
  function Close(s: GalleryState): (s': GalleryState)
    ensures !s'.open && s'.index == s.index
  {
    SetOpen(s, false)
  }

  /** `next` with `n` images: one step forward, wrapping from the last image
      to the first; nothing but the index changes. */
  function Next(s: GalleryState, n: int): (s': GalleryState)
    ensures s' == s.(index := s'.index)
    ensures n > 0 && 0 <= s.index < n ==> s'.index == (if s.index == n - 1 then 0 else s.index + 1)
    ensures n > 0 && s.index >= -1 ==> s'.index == (s.index + 1) % n
    ensures n <= 0 ==> s'.index == 0
  {
    s.(index := Clamp(s.index + 1, n))
  }

  /** `prev` with `n` images: one step back, wrapping from the first image to
      the last; nothing but the index changes. */
  function Prev(s: GalleryState, n: int): (s': GalleryState)
    ensures s' == s.(index := s'.index)
    ensures n > 0 && 0 <= s.index < n ==> s'.index == (if s.index == 0 then n - 1 else s.index - 1)
    ensures n > 0 && s.index >= 1 - n ==> s'.index == (s.index - 1) % n
    ensures n <= 0 ==> s'.index == 0
  {
    s.(index := Clamp(s.index - 1, n))
  }

  /** A thumbnail's `onClick`: select image `i` and open the lightbox. */
  function OpenAt(s: GalleryState, i: int): (s': GalleryState)
    ensures s'.open && s'.index == i
  {
    SetOpen(s.(index := i), true)
  }

  /** The lightbox is in the document only while open over a non-empty list
      (the component has mounted by the time anything can be clicked). */
  predicate Shown(s: GalleryState, n: int)
  {
    s.open && n > 0
  }

  /** The parts of the lightbox a pointer can land on. */
  datatype Target = Backdrop | TopBar | CloseButton | Picture | PrevButton | NextButton

  /** A user interaction. `Thumbnail(i)` activates the `i`-th grid button;
      `KeyDown` reaches the document; pointer events reach the lightbox. */
  datatype Event =
    | Thumbnail(i: int)
    | KeyDown(key: string)
    | PointerDown(target: Target)
    | Click(target: Target)

  /** The document `keydown` listener, attached while the lightbox is open:
      three independent tests, as in the source. */
  function OnKey(s: GalleryState, n: int, key: string): (s': GalleryState)
    ensures key == "Escape" ==> s' == Close(s)
    ensures key == "ArrowRight" ==> s' == Next(s, n)
    ensures key == "ArrowLeft" ==> s' == Prev(s, n)
    ensures key != "Escape" && key != "ArrowRight" && key != "ArrowLeft" ==> s' == s
  {
    var s1 := if key == "Escape" then Close(s) else s;
    var s2 := if key == "ArrowRight" then Next(s1, n) else s1;
    if key == "ArrowLeft" then Prev(s2, n) else s2
  }

  /** Pointer-down handlers: the backdrop closes, the arrow buttons navigate.
      The backdrop is a sibling of the layer that holds the picture, the top
      bar and the buttons, not their ancestor, so a press on any of those
      never reaches it; the picture and the close button have no action of
      their own on pointer-down, and the top bar has no handler. */
  function OnPointerDown(s: GalleryState, n: int, t: Target): (s': GalleryState)
    ensures t == Backdrop ==> !s'.open && s'.index == s.index
    ensures t == PrevButton || t == NextButton ==>
      s'.open == s.open && s'.overflow == s.overflow && s'.saved == s.saved
    ensures t == PrevButton ==> s' == Prev(s, n)
    ensures t == NextButton ==> s' == Next(s, n)
    ensures t == Picture || t == TopBar || t == CloseButton ==> s' == s
  {
    match t
    case Backdrop => Close(s)
    case PrevButton => Prev(s, n)
    case NextButton => Next(s, n)
    case _ => s
  }

  /** One interaction with a gallery showing `n` images. */
  function Step(s: GalleryState, n: int, e: Event): (s': GalleryState)
    ensures s'.open && !s.open ==> e.Thumbnail? && 0 <= e.i < n && s'.index == e.i
    ensures !s.open && !e.Thumbnail? ==> s' == s
    ensures e.Thumbnail? && 0 <= e.i < n ==> s' == OpenAt(s, e.i)
    ensures e.Click? && e.target != CloseButton ==> s' == s
    ensures e.Click? && e.target == CloseButton ==> s' == if Shown(s, n) then Close(s) else s
  {
    match e
    case Thumbnail(i) => if 0 <= i < n then OpenAt(s, i) else s
    case KeyDown(key) => if s.open then OnKey(s, n, key) else s
    case PointerDown(t) => if Shown(s, n) then OnPointerDown(s, n, t) else s
    case Click(t) => if Shown(s, n) && t == CloseButton then Close(s) else s
  }

  /** An interaction together with the number of images the gallery had when
      it happened (the list may change between interactions). */
  datatype Input = Input(count: nat, event: Event)

  function Run(s: GalleryState, inputs: seq<Input>): GalleryState
    decreases |inputs|
  {
    if inputs == [] then s
    else Run(Step(s, inputs[0].count, inputs[0].event), inputs[1..])
  }

  /** The body overflow left behind when the component unmounts: the
      effect's clean-up restores the saved value if the lock is held. */
  function Unmount(s: GalleryState): (overflow: string)
    ensures forall base :: Inv(s, base) ==> overflow == base
    ensures s.saved.None? ==> overflow == s.overflow
  {
    match s.saved
    case Some(v) => v
    case None => s.overflow
  }

  /** The `k / n` counter of the top bar, as (position, count). */
  function Counter(s: GalleryState, n: int): (c: Option<(int, int)>)
    ensures c.Some? <==> Shown(s, n)
    ensures c.Some? && s.index >= -n ==> 1 <= c.value.0 <= c.value.1 == n
    ensures c.Some? && 0 <= s.index < n ==> c.value.0 == s.index + 1
    ensures c.Some? && s.index >= -n ==> c.value.0 == s.index % n + 1
  {
    if Shown(s, n) then Some((Clamp(s.index, n) + 1, n)) else None
  }

  /** `current`: the image the lightbox shows and its position. Spreading an
      out-of-range `images[i]` would give no source, so `image` is then absent. */
  datatype Current = Current(image: Option<Image>, position: int)

  function CurrentImage(s: GalleryState, images: seq<Image>): (c: Option<Current>)
    ensures c.None? <==> images == []
    ensures c.Some? && s.index >= -|images| ==>
      0 <= c.value.position < |images| && c.value.image == Some(images[c.value.position])
    ensures c.Some? && 0 <= s.index < |images| ==>
      c.value.position == s.index && c.value.image == Some(images[s.index])
    ensures c.Some? && -|images| <= s.index < 0 ==>
      c.value.position == s.index + |images| && c.value.image == Some(images[s.index + |images|])
    ensures c.Some? && s.index >= -|images| ==>
      c.value.position == s.index % |images| && c.value.image == Some(images[s.index % |images|])
  {
    if images == [] then None
    else
      var i := Clamp(s.index, |images|);
      Some(Current(if 0 <= i < |images| then Some(images[i]) else None, i))
  }

  /** The counter and the picture agree: while the lightbox is shown, the
      counter's first number is one more than the position of the image on
      display. */
  lemma CounterMatchesImage(s: GalleryState, images: seq<Image>)
    requires Shown(s, |images|)
    ensures Counter(s, |images|).value.0 == CurrentImage(s, images).value.position + 1
    ensures Counter(s, |images|).value.1 == |images|
  {
  }

  /** The list shrinks under an open lightbox: with the eighth of eight images
      open and then only three images left, the lightbox shows the second of
      them as "2 / 3", since the stored index 7 is read modulo 3. */
  lemma ShrunkenList(base: string, images: seq<Image>)
    requires |images| == 3
    ensures var s := Step(Init(base), 8, Thumbnail(7));
      && Counter(s, 3) == Some((2, 3))
      && CurrentImage(s, images) == Some(Current(Some(images[1]), 1))
      && Counter(Step(s, 3, KeyDown("ArrowRight")), 3) == Some((3, 3))
      && Counter(Step(s, 3, KeyDown("ArrowLeft")), 3) == Some((1, 3))
  {
  }

  /** The invariant every reachable state keeps, relative to the body
      overflow `base` the page had when the gallery mounted: the index is
      never negative, and the lock is held exactly while open, having saved
      `base`. */
  ghost predicate Inv(s: GalleryState, base: string)
  {
    && s.index >= 0
    && (s.open <==> s.saved.Some?)
    && (s.open ==> s.overflow == Hidden && s.saved == Some(base))
    && (!s.open ==> s.overflow == base)
  }

  lemma StepKeepsInv(s: GalleryState, base: string, n: nat, e: Event)
    requires Inv(s, base)
    ensures Inv(Step(s, n, e), base)
  {
  }

  /** Every sequence of thumbnail clicks, keys and pointer events, with the
      image count changing at will, keeps the invariant. */
  lemma {:induction false} RunKeepsInv(s: GalleryState, base: string, inputs: seq<Input>)
    requires Inv(s, base)
    ensures Inv(Run(s, inputs), base)
    decreases |inputs|
  {
    if inputs != [] {
      StepKeepsInv(s, base, inputs[0].count, inputs[0].event);
      RunKeepsInv(Step(s, inputs[0].count, inputs[0].event), base, inputs[1..]);
    }
  }

  /** From mount on: the index is never negative; the page cannot scroll
      while the lightbox is open; whenever it is closed, and after unmount,
      the body overflow is exactly what it was before. */
  lemma ReachableStates(base: string, inputs: seq<Input>)
    ensures var s := Run(Init(base), inputs);
      && s.index >= 0
      && (s.open ==> s.overflow == Hidden)
      && (!s.open ==> s.overflow == base)
      && Unmount(s) == base
  {
    RunKeepsInv(Init(base), base, inputs);
  }

  /** While the list is empty no thumbnail exists, so the lightbox never opens. */
  lemma {:induction false} EmptyGalleryNeverOpens(s: GalleryState, inputs: seq<Input>)
    requires !s.open
    requires forall k :: 0 <= k < |inputs| ==> inputs[k].count == 0
    ensures !Run(s, inputs).open
    decreases |inputs|
  {
    if inputs != [] {
      EmptyGalleryNeverOpens(Step(s, 0, inputs[0].event), inputs[1..]);
    }
  }

  /** Activating thumbnail `i` selects it and opens the lightbox; closing
      keeps the index; opening then closing puts the body overflow back. */
  lemma OpenThenClose(s: GalleryState, n: int, i: int)
    requires 0 <= i < n
    requires !s.open && s.saved.None?
    ensures var afterOpen := Step(s, n, Thumbnail(i));
      && afterOpen.open && afterOpen.index == i && afterOpen.overflow == Hidden
      && Close(afterOpen) == s.(index := i)
  {
  }

  /** Keyboard dispatch: while open, Escape closes, ArrowRight goes forward,
      ArrowLeft goes back and any other key does nothing; while closed no key
      does anything. */
  lemma KeyDispatch(s: GalleryState, n: int, key: string)
    ensures !s.open ==> Step(s, n, KeyDown(key)) == s
    ensures s.open && key == "Escape" ==> Step(s, n, KeyDown(key)) == Close(s)
    ensures s.open && key == "ArrowRight" ==> Step(s, n, KeyDown(key)) == Next(s, n)
    ensures s.open && key == "ArrowLeft" ==> Step(s, n, KeyDown(key)) == Prev(s, n)
    ensures key != "Escape" && key != "ArrowRight" && key != "ArrowLeft" ==>
      Step(s, n, KeyDown(key)) == s
  {
  }

  /** Pointer dispatch: pressing on the backdrop closes the lightbox, pressing
      on the picture or the top bar does not, and the close button acts on
      click; nothing reaches a lightbox that is not shown. */
  lemma PointerDispatch(s: GalleryState, n: int)
    ensures Shown(s, n) ==> !Step(s, n, PointerDown(Backdrop)).open
    ensures Step(s, n, PointerDown(Picture)) == s
    ensures Step(s, n, PointerDown(TopBar)) == s
    ensures Step(s, n, PointerDown(CloseButton)) == s
    ensures Shown(s, n) ==> !Step(s, n, Click(CloseButton)).open
    ensures Shown(s, n) ==> Step(s, n, PointerDown(PrevButton)) == Prev(s, n)
    ensures Shown(s, n) ==> Step(s, n, PointerDown(NextButton)) == Next(s, n)
    ensures forall t :: t != CloseButton ==> Step(s, n, Click(t)) == s
    ensures Step(s, n, Click(CloseButton)) == if Shown(s, n) then Close(s) else s
    ensures !Shown(s, n) ==> forall t :: Step(s, n, PointerDown(t)) == s && Step(s, n, Click(t)) == s
  {
  }

  /** If the list empties while the lightbox is open, the lightbox disappears
      but the scroll lock stays and the keyboard listener remains: only
      Escape releases the page. */
  lemma EmptiedWhileOpen(s: GalleryState, base: string)
    requires Inv(s, base) && s.open
    ensures Counter(s, 0).None?
    ensures Step(s, 0, PointerDown(Backdrop)).overflow == Hidden
    ensures Step(s, 0, KeyDown("Escape")).overflow == base
  {
  }

  /** `next` from the last image gives the first, `prev` from the first
      gives the last, and each undoes the other. */
  lemma NextPrevInverse(i: int, n: int)
    requires 0 <= i < n
    ensures Clamp(n - 1 + 1, n) == 0 && Clamp(0 - 1, n) == n - 1
    ensures Clamp(Clamp(i + 1, n) - 1, n) == i
    ensures Clamp(Clamp(i - 1, n) + 1, n) == i
  {
  }

  /** On the gallery state: `prev` undoes `next` and `next` undoes `prev`
      whenever the index names an image. */
  lemma NextPrevUndo(s: GalleryState, n: int)
    requires 0 <= s.index < n
    ensures Prev(Next(s, n), n) == s
    ensures Next(Prev(s, n), n) == s
  {
  }

  /** The index after `k` presses of `next`. */
  function NextTimes(i: int, n: int, k: nat): int
  {
    if k == 0 then i else Clamp(NextTimes(i, n, k - 1) + 1, n)
  }

  lemma {:induction false} NextTimesAdvances(i: int, n: int, k: nat)
    requires 0 <= i < n && k <= n
    ensures NextTimes(i, n, k) == if i + k < n then i + k else i + k - n
  {
    if k > 0 {
      NextTimesAdvances(i, n, k - 1);
    }
  }

  /** Pressing `next` as many times as there are images returns to the
      starting image. */
  lemma NextCycle(i: int, n: int)
    requires 0 <= i < n
    ensures NextTimes(i, n, n) == i
  {
    NextTimesAdvances(i, n, n);
  }

  /** A walk-through with three images: open the first, go
      forward three times (wrapping to the first), then back once (wrapping
      to the last). */
  lemma ThreeImageScenario(base: string)
    ensures var s0 := Step(Init(base), 3, Thumbnail(0));
      var s1 := Step(s0, 3, PointerDown(NextButton));
      var s2 := Step(s1, 3, KeyDown("ArrowRight"));
      var s3 := Step(s2, 3, PointerDown(NextButton));
      var s4 := Step(s3, 3, KeyDown("ArrowLeft"));
      && Counter(s0, 3) == Some((1, 3))
      && Counter(s1, 3) == Some((2, 3))
      && Counter(s2, 3) == Some((3, 3))
      && Counter(s3, 3) == Some((1, 3))
      && Counter(s4, 3) == Some((3, 3))
  {
  }
}
