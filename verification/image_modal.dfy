/** The project image modal: navigation inside the clicked card's category,
    the counter, zoom between 1x and 3x, panning while zoomed (mouse, touch
    and arrow keys), and the keyboard dispatch. Image loading and the pan
    hint's 2 s timer are explicit events. */
module ImageModal {
  import opened JsText

  const MinZoom: real := 1.0
  const MaxZoom: real := 3.0
  const ZoomFactor: real := 1.2
  const KeyPanStep: int := 20

  /** The CSS transform last written to the image: `scale(s) translate(x, y)`. */
  datatype Transform = Transform(scale: real, x: int, y: int)

  /** `count` is `currentProjects.length` and `index` `currentProjectIndex`;
      `zoom` is `currentZoom`, `tx, ty` are the `translateX/Y` variables and
      `lastTx, lastTy` the translation committed at the end of the last
      drag; `startX, startY` is the drag anchor; `chromeHidden` is the
      `hidden` class on the info, counter and arrows; `indicator` is the pan
      hint; `applied` is what the image shows, which changes only when
      `applyTransform` runs. */
  datatype Modal = Modal(
    count: nat, index: int, open: bool, loading: bool,
    zoom: real, tx: int, ty: int, lastTx: int, lastTy: int,
    dragging: bool, startX: int, startY: int,
    chromeHidden: bool, indicator: bool, applied: Transform)

  const Closed: Modal :=
    Modal(0, 0, false, false, 1.0, 0, 0, 0, 0, false, 0, 0, false, false, Transform(1.0, 0, 0))

  /** `applyTransform`: the image shows the current zoom and translation. */
  function ApplyTransform(m: Modal): (r: Modal)
    ensures r.applied == Transform(m.zoom, m.tx, m.ty)
    ensures r.(applied := m.applied) == m
  {
    m.(applied := Transform(m.zoom, m.tx, m.ty))
  }

  function Min(a: real, b: real): real { if a <= b then a else b }
  function Max(a: real, b: real): real { if a >= b then a else b }

  /** `openModal`: with an empty list nothing happens; otherwise the modal
      shows, with the loading spinner until the image arrives. */
  function OpenModal(m: Modal): (r: Modal)
    ensures m.count == 0 ==> r == m
    ensures m.count > 0 ==> r == m.(open := true, loading := true)
  {
    if m.count == 0 then m else m.(open := true, loading := true)
  }

  /** `resetPan`: the translation variables go to 0, but the image keeps
      the transform it was last given. */
  function ResetPan(m: Modal): (r: Modal)
    ensures r.tx == 0 && r.ty == 0 && r.lastTx == 0 && r.lastTy == 0
    ensures r.zoom == m.zoom && r.index == m.index && r.open == m.open && r.dragging == m.dragging
    ensures r.applied == m.applied
  {
    m.(tx := 0, ty := 0, lastTx := 0, lastTy := 0)
  }

  /** `resetZoom`: back to 1x with the pan reset before the transform is
      applied, so the image shows no translation; chrome visible, hint hidden. */
  function ResetZoom(m: Modal): (r: Modal)
    ensures r.zoom == MinZoom && r.tx == 0 && r.ty == 0 && r.lastTx == 0 && r.lastTy == 0
    ensures r.applied == Transform(MinZoom, 0, 0)
    ensures !r.chromeHidden && !r.indicator
    ensures r.index == m.index && r.count == m.count && r.open == m.open && r.loading == m.loading
  {
    ApplyTransform(ResetPan(m).(zoom := MinZoom)).(chromeHidden := false, indicator := false)
  }

  /** `closeModal`. */
  function CloseModal(m: Modal): (r: Modal)
    ensures !r.open && r.zoom == MinZoom && r.tx == 0 && r.ty == 0
    ensures r.applied == Transform(MinZoom, 0, 0)
  {
    ResetZoom(m.(open := false))
  }

  /** `previousImage`: a no-op on the first image. */
  function PreviousImage(m: Modal): (r: Modal)
    ensures m.index > 0 ==> r.index == m.index - 1 && (m.count > 0 ==> r.open && r.loading)
    ensures m.index <= 0 ==> r == m
    ensures r.zoom == m.zoom && r.count == m.count
  {
    if m.index > 0 then OpenModal(m.(index := m.index - 1)) else m
  }

  /** `nextImage`: a no-op on the last image. */
  function NextImage(m: Modal): (r: Modal)
    ensures m.index < m.count - 1 ==> r.index == m.index + 1 && (m.count > 0 ==> r.open && r.loading)
    ensures m.index >= m.count - 1 ==> r == m
    ensures r.zoom == m.zoom && r.count == m.count
  {
    if m.index < m.count - 1 then OpenModal(m.(index := m.index + 1)) else m
  }

  /** `updateCounter`: "position / total", one-based. Read back, the
      digits before the first space give the position and those after the
      separator give the total. */
  function CounterText(index: nat, count: nat): (r: string)
    ensures var k := FirstSpace(r);
            && k + 3 <= |r| && r[k..k + 3] == " / "
            && (forall i :: 0 <= i < k ==> '0' <= r[i] <= '9')
            && (forall i :: k + 3 <= i < |r| ==> '0' <= r[i] <= '9')
            && ParseDigits(r[..k]) == index + 1 && ParseDigits(r[k + 3..]) == count
  {
    var a, b := NatToString(index + 1), NatToString(count);
    SplitAtSeparator(a, b);
    ParseNatToString(index + 1);
    ParseNatToString(count);
    a + " / " + b
  }

  /** Position of the first space in `t` (`|t|` when there is none). */
  function FirstSpace(t: string): (k: nat)
    ensures k <= |t|
  {
    if |t| == 0 || t[0] == ' ' then 0 else 1 + FirstSpace(t[1..])
  }

  lemma {:induction false} FirstSpaceAfterDigits(a: string, rest: string)
    requires forall i :: 0 <= i < |a| ==> '0' <= a[i] <= '9'
    requires |rest| > 0 && rest[0] == ' '
    ensures FirstSpace(a + rest) == |a|
    decreases |a|
  {
    if |a| > 0 {
      assert (a + rest)[1..] == a[1..] + rest;
      FirstSpaceAfterDigits(a[1..], rest);
    } else {
      assert a + rest == rest;
    }
  }

  /** The counter text determines the position and the total: digits never
      contain the space of the separator. */
  lemma CounterTextInjective(i: nat, n: nat, i': nat, n': nat)
    requires CounterText(i, n) == CounterText(i', n')
    ensures i == i' && n == n'
  {
  }

  /** A run of digits, the separator and a tail: the first space marks where
      the digits end, and what follows the separator is the tail. */
  lemma SplitAtSeparator(a: string, b: string)
    requires forall i :: 0 <= i < |a| ==> '0' <= a[i] <= '9'
    ensures var t := a + " / " + b;
            FirstSpace(t) == |a| && t[..|a|] == a && t[|a|..|a| + 3] == " / " && t[|a| + 3..] == b
  {
    assert a + " / " + b == a + (" / " + b);
    FirstSpaceAfterDigits(a, " / " + b);
  }

  /** `zoomIn`: below 3x the zoom grows by 1.2, capped at 3x, and is
      applied; zooming past 1x hides the chrome and shows the pan hint. */
  function ZoomIn(m: Modal): (r: Modal)
    ensures m.zoom < MaxZoom ==> r.zoom == Min(m.zoom * ZoomFactor, MaxZoom)
    ensures m.zoom < MaxZoom ==> r.applied == Transform(r.zoom, m.tx, m.ty)
    ensures m.zoom >= MaxZoom ==> r == m
    ensures r.tx == m.tx && r.ty == m.ty && r.lastTx == m.lastTx && r.lastTy == m.lastTy
  {
    if m.zoom < MaxZoom then
      var z := Min(m.zoom * ZoomFactor, MaxZoom);
      ApplyTransform(m.(zoom := z)).(chromeHidden := z > 1.0, indicator := if z > 1.0 then true else m.indicator)
    else m
  }

  /** `zoomOut`, as written: above 1x the zoom shrinks by 1.2, floored at
      1x, and is applied together with the current translation; only then,
      on reaching 1x, are the translation variables zeroed and the hint
      hidden, so the image keeps showing the old translation. */
  function ZoomOut(m: Modal): (r: Modal)
    ensures m.zoom > MinZoom ==> r.zoom == Max(m.zoom / ZoomFactor, MinZoom)
    ensures m.zoom > MinZoom ==> r.applied == Transform(r.zoom, m.tx, m.ty)
    ensures m.zoom > MinZoom && r.zoom == MinZoom ==> r.tx == 0 && r.ty == 0 && !r.indicator
    ensures m.zoom <= MinZoom ==> r == m
  {
    if m.zoom > MinZoom then
      var z := Max(m.zoom / ZoomFactor, MinZoom);
      var d := ApplyTransform(m.(zoom := z)).(chromeHidden := z > 1.0);
      if z == 1.0 then ResetPan(d).(indicator := false) else d
    else m
  }

  /** `zoomOut` with the pan reset before the transform is applied: the
      same state as written, except that the image shows the translation
      the variables now hold. */
  function ZoomOutCorrected(m: Modal): (r: Modal)
    ensures m.zoom > MinZoom ==> r.applied == Transform(r.zoom, r.tx, r.ty)
    ensures m.zoom > MinZoom && r.zoom == MinZoom ==> r.applied == Transform(MinZoom, 0, 0)
    ensures m.zoom <= MinZoom ==> r == m
  {
    if m.zoom > MinZoom then
      var z := Max(m.zoom / ZoomFactor, MinZoom);
      var d := m.(zoom := z, chromeHidden := z > 1.0);
      ApplyTransform(if z == 1.0 then ResetPan(d).(indicator := false) else d)
    else m
  }

  /** The corrected zoom-out reaches the same state as the one written,
      apart from what the image shows. */
  lemma ZoomOutCorrectedOnlyFixesImage(m: Modal)
    ensures ZoomOutCorrected(m).(applied := ZoomOut(m).applied) == ZoomOut(m)
  {
  }

  /** mousedown / touchstart on the image: a drag starts only when zoomed,
      anchored so that the committed translation continues from the press. */
  function PressPan(m: Modal, x: int, y: int): (r: Modal)
    ensures m.zoom > 1.0 ==> r.dragging && r.startX == x - m.lastTx && r.startY == y - m.lastTy
    ensures m.zoom <= 1.0 ==> r == m
  {
    if m.zoom > 1.0 then m.(dragging := true, startX := x - m.lastTx, startY := y - m.lastTy) else m
  }

  /** mousemove / touchmove: the translation follows the pointer. */
  function MovePan(m: Modal, x: int, y: int): (r: Modal)
    ensures m.dragging && m.zoom > 1.0 ==> r.tx == x - m.startX && r.ty == y - m.startY
    ensures m.dragging && m.zoom > 1.0 ==> r.applied == Transform(m.zoom, r.tx, r.ty)
    ensures !(m.dragging && m.zoom > 1.0) ==> r == m
  {
    if m.dragging && m.zoom > 1.0 then ApplyTransform(m.(tx := x - m.startX, ty := y - m.startY)) else m
  }

  /** mouseup / touchend: the drag ends and its translation is committed. */
  function ReleasePan(m: Modal): (r: Modal)
    ensures m.dragging ==> !r.dragging && r.lastTx == m.tx && r.lastTy == m.ty
    ensures !m.dragging ==> r == m
  {
    if m.dragging then m.(dragging := false, lastTx := m.tx, lastTy := m.ty) else m
  }

  /** The `e.key` values the keydown handler distinguishes. */
  datatype KeyName = Escape | ArrowLeft | ArrowRight | ArrowUp | ArrowDown | ZoomInKey | ZoomOutKey | ResetKey | OtherKey

  /** The `switch (e.key)` of the handler: `+` and `=` share a case, as do
      `-` and `_`; every other key falls through. */
  function KeyOf(key: string): (k: KeyName)
    ensures k == Escape <==> key == "Escape"
    ensures k == ArrowLeft <==> key == "ArrowLeft"
    ensures k == ArrowRight <==> key == "ArrowRight"
    ensures k == ArrowUp <==> key == "ArrowUp"
    ensures k == ArrowDown <==> key == "ArrowDown"
    ensures k == ZoomInKey <==> key == "+" || key == "="
    ensures k == ZoomOutKey <==> key == "-" || key == "_"
    ensures k == ResetKey <==> key == "0"
  {
    if key == "Escape" then Escape
    else if key == "ArrowLeft" then ArrowLeft
    else if key == "ArrowRight" then ArrowRight
    else if key == "ArrowUp" then ArrowUp
    else if key == "ArrowDown" then ArrowDown
    else if key == "+" || key == "=" then ZoomInKey
    else if key == "-" || key == "_" then ZoomOutKey
    else if key == "0" then ResetKey
    else OtherKey
  }

  /** An arrow-key pan: when zoomed, the translation moves by `(dx, dy)`
      and is applied; nothing is committed. */
  function KeyPan(m: Modal, dx: int, dy: int): Modal {
    if m.zoom > 1.0 then ApplyTransform(m.(tx := m.tx + dx, ty := m.ty + dy)) else m
  }

  predicate IsArrow(k: KeyName) {
    k == ArrowLeft || k == ArrowRight || k == ArrowUp || k == ArrowDown
  }

  /** The four arrow cases of the handler: Shift+Left/Right navigate;
      otherwise an arrow pans by 20 px when zoomed, applying the new
      translation without committing it. */
  function ArrowKey(m: Modal, k: KeyName, shift: bool): (r: Modal)
    requires IsArrow(k)
    ensures k == ArrowLeft && shift ==> r.index == (if m.index > 0 then m.index - 1 else m.index)
    ensures k == ArrowRight && shift ==> r.index == (if m.index < m.count - 1 then m.index + 1 else m.index)
    ensures (k == ArrowLeft || k == ArrowRight) && shift ==> r.zoom == m.zoom && r.tx == m.tx && r.ty == m.ty
    ensures !((k == ArrowLeft || k == ArrowRight) && shift) ==>
              && r.zoom == m.zoom && r.index == m.index && r.open == m.open
              && r.lastTx == m.lastTx && r.lastTy == m.lastTy
              && r.tx == m.tx + (if m.zoom > 1.0 && k == ArrowLeft then KeyPanStep
                                 else if m.zoom > 1.0 && k == ArrowRight then -KeyPanStep else 0)
              && r.ty == m.ty + (if m.zoom > 1.0 && k == ArrowUp then KeyPanStep
                                 else if m.zoom > 1.0 && k == ArrowDown then -KeyPanStep else 0)
              && (m.zoom > 1.0 ==> r.applied == Transform(r.zoom, r.tx, r.ty))
              && (m.zoom <= 1.0 ==> r == m)
  {
    if k == ArrowLeft then (if shift then PreviousImage(m) else KeyPan(m, KeyPanStep, 0))
    else if k == ArrowRight then (if shift then NextImage(m) else KeyPan(m, -KeyPanStep, 0))
    else if k == ArrowUp then KeyPan(m, 0, KeyPanStep)
    else KeyPan(m, 0, -KeyPanStep)
  }

  /** The keydown handler, as written: keys do nothing while the modal is
      closed; the arrows behave as `ArrowKey` says, `+`/`=` and `-`/`_`
      zoom, `0` resets, Escape closes, and any other key does nothing. */
  function KeyDown(m: Modal, key: string, shift: bool): (r: Modal)
    ensures !m.open ==> r == m
    ensures m.open && KeyOf(key) == Escape ==>
              !r.open && r.zoom == MinZoom && r.tx == 0 && r.ty == 0 && r.applied == Transform(MinZoom, 0, 0)
    ensures m.open && IsArrow(KeyOf(key)) ==> r == ArrowKey(m, KeyOf(key), shift)
    ensures m.open && KeyOf(key) == ZoomInKey ==> r == ZoomIn(m)
    ensures m.open && KeyOf(key) == ZoomOutKey ==> r == ZoomOut(m)
    ensures m.open && KeyOf(key) == ResetKey ==>
              r.zoom == MinZoom && r.tx == 0 && r.ty == 0 && r.applied == Transform(MinZoom, 0, 0)
    ensures KeyOf(key) == OtherKey ==> r == m
  {
    if !m.open then m
    else match KeyOf(key)
      case Escape => CloseModal(m)
      case ZoomInKey => ZoomIn(m)
      case ZoomOutKey => ZoomOut(m)
      case ResetKey => ResetZoom(m)
      case OtherKey => m
      case _ => ArrowKey(m, KeyOf(key), shift)
  }

  /** The keydown handler with both corrections: the arrow keys commit
      their pan, so that a following drag continues from where the keys
      left the image, and `-`/`_` use the corrected zoom-out. */
  function KeyDownCorrected(m: Modal, key: string, shift: bool): (r: Modal)
    ensures !m.open ==> r == m
    ensures m.open && IsArrow(KeyOf(key)) ==>
              r == KeyDown(m, key, shift).(lastTx := r.tx, lastTy := r.ty)
              && r.lastTx == r.tx && r.lastTy == r.ty
    ensures m.open && KeyOf(key) == ZoomOutKey ==> r == ZoomOutCorrected(m)
    ensures !IsArrow(KeyOf(key)) && KeyOf(key) != ZoomOutKey ==> r == KeyDown(m, key, shift)
  {
    if m.open && KeyOf(key) == ZoomOutKey then ZoomOutCorrected(m)
    else
      var r := KeyDown(m, key, shift);
      if m.open && IsArrow(KeyOf(key)) then r.(lastTx := r.tx, lastTy := r.ty) else r
  }

  /** Everything that reaches the modal. `OpenCard` carries the size of the
      clicked card's category list and the card's position in it; `Key`
      carries `e.key` and `e.shiftKey`. */
  datatype Event =
    | OpenCard(count: nat, idx: int)
    | OverlayClick(onBackdrop: bool)
    | PrevButton | NextButton
    | ZoomInButton | ZoomOutButton | ResetButton
    | Wheel(deltaY: int)
    | ImageLoaded | IndicatorTimeout
    | Press(x: int, y: int) | Move(x: int, y: int) | Release
    | Key(key: string, shift: bool)

  function Step(m: Modal, e: Event): Modal {
    match e
    case OpenCard(n, i) => if 0 <= i < n then OpenModal(m.(count := n, index := i)) else m
    case OverlayClick(b) => if b then CloseModal(m) else m
    case PrevButton => PreviousImage(m)
    case NextButton => NextImage(m)
    case ZoomInButton => ZoomIn(m)
    case ZoomOutButton => ZoomOut(m)
    case ResetButton => ResetZoom(m)
    case Wheel(d) => if d < 0 then ZoomIn(m) else ZoomOut(m)
    case ImageLoaded => ResetZoom(m.(loading := false))
    case IndicatorTimeout => m.(indicator := false)
    case Press(x, y) => PressPan(m, x, y)
    case Move(x, y) => MovePan(m, x, y)
    case Release => ReleasePan(m)
    case Key(k, s) => KeyDown(m, k, s)
  }

  function StepCorrected(m: Modal, e: Event): Modal {
    match e
    case ZoomOutButton => ZoomOutCorrected(m)
    case Wheel(d) => if d < 0 then ZoomIn(m) else ZoomOutCorrected(m)
    case Key(k, s) => KeyDownCorrected(m, k, s)
    case _ => Step(m, e)
  }

  /** The modal's invariant: zoom within [1, 3]; at 1x the translation
      variables are 0 with nothing committed; the image shows the current
      zoom, and while zoomed also the current translation; the chrome is
      hidden exactly when zoomed; the hint only shows when zoomed; the index
      points into a non-empty list, and the modal is only open on one. */
  predicate Inv(m: Modal) {
    && MinZoom <= m.zoom <= MaxZoom
    && (m.zoom == MinZoom ==> m.tx == 0 && m.ty == 0 && m.lastTx == 0 && m.lastTy == 0)
    && m.applied.scale == m.zoom
    && (m.zoom > MinZoom ==> m.applied.x == m.tx && m.applied.y == m.ty)
    && (m.chromeHidden <==> m.zoom > MinZoom)
    && (m.indicator ==> m.zoom > MinZoom)
    && 0 <= m.index && (m.count > 0 ==> m.index < m.count)
    && (m.open ==> m.count > 0)
  }

  lemma ClosedIsValid()
    ensures Inv(Closed) && Shown(Closed)
  {
  }

  /** The image shows exactly the current zoom and translation variables. */
  predicate Shown(m: Modal) {
    m.applied == Transform(m.zoom, m.tx, m.ty)
  }

  lemma StepKeepsInv(m: Modal, e: Event)
    requires Inv(m)
    ensures Inv(Step(m, e)) && Inv(StepCorrected(m, e))
  {
    match e
    case Key(k, s) => KeyKeepsInv(m, k, s);
    case ZoomInButton => ZoomKeepsInv(m);
    case ZoomOutButton => ZoomKeepsInv(m);
    case Wheel(_) => ZoomKeepsInv(m);
    case _ =>
  }

  lemma ZoomKeepsInv(m: Modal)
    requires Inv(m)
    ensures Inv(ZoomIn(m)) && Inv(ZoomOut(m)) && Inv(ZoomOutCorrected(m))
  {
  }

  lemma KeyKeepsInv(m: Modal, key: string, shift: bool)
    requires Inv(m)
    ensures Inv(KeyDown(m, key, shift)) && Inv(KeyDownCorrected(m, key, shift))
  {
    KeyDownKeepsInv(m, key, shift);
    if m.open && KeyOf(key) == ZoomOutKey {
      ZoomKeepsInv(m);
    }
  }

  lemma KeyDownKeepsInv(m: Modal, key: string, shift: bool)
    requires Inv(m)
    ensures Inv(KeyDown(m, key, shift))
  {
    if m.open {
      match KeyOf(key)
      case ZoomInKey => ZoomKeepsInv(m);
      case ZoomOutKey => ZoomKeepsInv(m);
      case Escape =>
      case ResetKey =>
      case OtherKey =>
      case _ => ArrowKeepsInv(m, KeyOf(key), shift);
    }
  }

  lemma ArrowKeepsInv(m: Modal, k: KeyName, shift: bool)
    requires Inv(m) && IsArrow(k)
    ensures Inv(ArrowKey(m, k, shift))
  {
    if (k == ArrowLeft || k == ArrowRight) && shift {
      assert ArrowKey(m, k, shift) == if k == ArrowLeft then PreviousImage(m) else NextImage(m);
    }
  }

  /** With the pan reset before the transform is applied, every event keeps
      the image showing the current zoom and translation, so at 1x the image
      carries no translation. */
  lemma CorrectedKeepsShown(m: Modal, e: Event)
    requires Inv(m) && Shown(m)
    ensures Shown(StepCorrected(m, e))
    ensures StepCorrected(m, e).zoom == MinZoom ==> StepCorrected(m, e).applied == Transform(MinZoom, 0, 0)
  {
    StepKeepsInv(m, e);
  }

  /** As written, a zoom-out that reaches 1x leaves the image showing the
      translation it had, although the translation variables now read 0;
      the corrected zoom-out shows it with no translation. */
  lemma ZoomOutKeepsOldTranslation(m: Modal)
    requires Inv(m) && Shown(m) && MinZoom < m.zoom <= ZoomFactor
    ensures var r := ZoomOut(m);
            && Inv(r) && r.zoom == MinZoom && r.tx == 0 && r.ty == 0
            && r.applied == Transform(MinZoom, m.tx, m.ty)
            && (Shown(r) <==> m.tx == 0 && m.ty == 0)
    ensures ZoomOutCorrected(m).applied == Transform(MinZoom, 0, 0)
  {
    ZoomKeepsInv(m);
  }

  /** A complete drag while zoomed moves the image by the pointer's
      displacement from the committed translation, and commits it. */
  lemma DragMovesBy(m: Modal, x0: int, y0: int, x1: int, y1: int)
    requires Inv(m) && m.zoom > MinZoom
    ensures var d := ReleasePan(MovePan(PressPan(m, x0, y0), x1, y1));
            && Inv(d) && Shown(d) && PanCommitted(d) && d.zoom == m.zoom
            && d.tx == m.lastTx + (x1 - x0) && d.ty == m.lastTy + (y1 - y0)
  {
    var p := PressPan(m, x0, y0);
    assert p == m.(dragging := true, startX := x0 - m.lastTx, startY := y0 - m.lastTy);
    var mv := MovePan(p, x1, y1);
    assert mv == ApplyTransform(p.(tx := x1 - p.startX, ty := y1 - p.startY));
  }

  /** Opening a one-image modal and zooming in once gives a valid state at
      1.2x with nothing translated. */
  lemma ZoomInAfterOpen()
    ensures var z := ZoomIn(OpenModal(Closed.(count := 1)));
            Inv(z) && z.zoom == ZoomFactor && z.lastTx == 0 && z.lastTy == 0
  {
    var o := OpenModal(Closed.(count := 1));
    assert Inv(o) && o.zoom == MinZoom;
    ZoomKeepsInv(o);
  }

  /** As written, opening a one-image modal, zooming in once, dragging
      `dx` px sideways and zooming back out leaves the image at 1x still
      shifted by `dx` px; the corrected zoom-out shows no translation. */
  lemma ZoomOutLeavesImageShifted(dx: int)
    requires dx != 0
    ensures var d := ReleasePan(MovePan(PressPan(ZoomIn(OpenModal(Closed.(count := 1))), 0, 0), dx, 0));
            var r := ZoomOut(d);
            && r.zoom == MinZoom && r.tx == 0 && r.applied == Transform(MinZoom, dx, 0) && !Shown(r)
            && ZoomOutCorrected(d).applied == Transform(MinZoom, 0, 0)
  {
    ZoomInAfterOpen();
    var z := ZoomIn(OpenModal(Closed.(count := 1)));
    DragMovesBy(z, 0, 0, dx, 0);
    ZoomOutKeepsOldTranslation(ReleasePan(MovePan(PressPan(z, 0, 0), dx, 0)));
  }

  /** Outside a drag the committed translation is the one on screen. */
  predicate PanCommitted(m: Modal) {
    !m.dragging ==> m.lastTx == m.tx && m.lastTy == m.ty
  }

  /** With the arrow keys committing their pan, every event keeps the
      committed translation in step with the screen. */
  lemma CorrectedKeepsPanCommitted(m: Modal, e: Event)
    requires Inv(m) && PanCommitted(m)
    ensures PanCommitted(StepCorrected(m, e))
  {
  }

  /** ...so pressing and moving without displacement leaves the image where
      it is. */
  lemma CorrectedDragContinues(m: Modal, x: int, y: int)
    requires Inv(m) && PanCommitted(m) && !m.dragging && m.zoom > 1.0
    ensures var r := MovePan(PressPan(m, x, y), x, y); r.tx == m.tx && r.ty == m.ty
  {
  }

  /** As written, one ArrowLeft at 1.2x followed by a press and a move to the
      same point throws the image back 20 px. */
  lemma ArrowPanLostOnDrag(x: int, y: int)
    ensures var zoomed := ZoomIn(OpenModal(Closed.(count := 1)));
            var panned := KeyDown(zoomed, "ArrowLeft", false);
            var dragged := MovePan(PressPan(panned, x, y), x, y);
            panned.tx == 20 && dragged.tx == 0 && !PanCommitted(panned)
  {
  }

  /** One zoom-out divides any bound on the zoom by 1.2, down to 1x. */
  lemma ZoomOutShrinks(m: Modal, bound: real)
    requires Inv(m) && m.zoom <= bound
    ensures Inv(ZoomOut(m)) && ZoomOut(m).zoom <= Max(bound / ZoomFactor, MinZoom)
  {
    StepKeepsInv(m, ZoomOutButton);
  }

  /** Seven zoom-outs from any valid state return to 1x with the translation
      variables at 0. */
  lemma SevenZoomOutsReset(m: Modal)
    requires Inv(m)
    ensures var r := ZoomOut(ZoomOut(ZoomOut(ZoomOut(ZoomOut(ZoomOut(ZoomOut(m)))))));
            r.zoom == MinZoom && r.tx == 0 && r.ty == 0
  {
    var m1 := ZoomOut(m);
    ZoomOutShrinks(m, 3.0);
    var m2 := ZoomOut(m1);
    ZoomOutShrinks(m1, 2.5);
    var m3 := ZoomOut(m2);
    ZoomOutShrinks(m2, 2.09);
    var m4 := ZoomOut(m3);
    ZoomOutShrinks(m3, 1.75);
    var m5 := ZoomOut(m4);
    ZoomOutShrinks(m4, 1.46);
    var m6 := ZoomOut(m5);
    ZoomOutShrinks(m5, 1.22);
    ZoomOutShrinks(m6, 1.02);
  }

  /** Zooming in and straight back out restores the zoom level unless the
      3x cap cut the zoom-in short. */
  lemma ZoomInOutRestores(m: Modal)
    requires Inv(m) && m.zoom * ZoomFactor <= MaxZoom
    ensures ZoomOut(ZoomIn(m)).zoom == m.zoom
  {
  }
}
