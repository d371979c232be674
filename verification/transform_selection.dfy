/**
 * The discrete state of the editor's transform selection: the pivot override frame and
 * its pick flags, the pivot mode, the reference frame chosen by keyboard modifiers or
 * locked by the viewport's space buttons, the mouse-input predicates the viewport
 * handler dispatches on, and the mouse-wheel cycling of the manipulator mode.
 */
module TransformSelection {
  import opened Wrappers

  // ---------------------------------------------------------------------------------
  // The pivot override frame

  /** A position; its coordinates only ever pass through this model unchanged. */
  datatype Vector3 = Vector3(x: int, y: int, z: int)
  /** An orientation; its components only ever pass through this model unchanged. */
  datatype Quaternion = Quaternion(x: int, y: int, z: int, w: int)

  type EntityId = nat
  /** The invalid entity id is the largest 64-bit value. */
  const InvalidEntityId: EntityId := 0xFFFF_FFFF_FFFF_FFFF

  /** Which parts of the override frame were picked from an entity. */
  type PickTypes = bv8
  const PickNone: PickTypes := 0
  const PickTranslation: PickTypes := 1
  const PickOrientation: PickTypes := 2

  /**
   * An optional override of the manipulator's position and orientation, the entity it
   * was picked from, and which of the two were picked.
   */
  datatype OptionalFrame = OptionalFrame(
    translationOverride: Option<Vector3>,
    orientationOverride: Option<Quaternion>,
    pickedEntityIdOverride: EntityId,
    pickTypes: PickTypes)

  predicate HasTranslationOverride(f: OptionalFrame)
  {
    f.translationOverride.Some?
  }

  predicate HasOrientationOverride(f: OptionalFrame)
  {
    f.orientationOverride.Some?
  }

  predicate HasTransformOverride(f: OptionalFrame)
  {
    f.translationOverride.Some? || f.orientationOverride.Some?
  }

  predicate HasEntityOverride(f: OptionalFrame)
  {
    f.pickedEntityIdOverride != InvalidEntityId
  }

  predicate PickedTranslation(f: OptionalFrame)
  {
    f.pickTypes & PickTranslation != 0
  }

  predicate PickedOrientation(f: OptionalFrame)
  {
    f.pickTypes & PickOrientation != 0
  }

  /** The pick flags hold no bit other than the translation and orientation flags. */
  predicate PickFlagsOnly(f: OptionalFrame)
  {
    f.pickTypes & !(PickTranslation | PickOrientation) == 0
  }

  /** There is a transform override exactly when there is a translation or an orientation override. */
  lemma TransformOverrideIsEither(f: OptionalFrame)
    ensures HasTransformOverride(f) <==> HasTranslationOverride(f) || HasOrientationOverride(f)
  {
  }

  /** Flags holding only the two known bits are determined by the two pick queries. */
  lemma PickFlagsMeaning(f: OptionalFrame)
    requires PickFlagsOnly(f)
    ensures f.pickTypes == (if PickedTranslation(f) then PickTranslation else PickNone)
                         | (if PickedOrientation(f) then PickOrientation else PickNone)
  {
  }

  /** Drops both overrides, the picked entity and every pick flag. */
  function Reset(f: OptionalFrame): (r: OptionalFrame)
    ensures !HasTransformOverride(r) && !HasEntityOverride(r)
    ensures !PickedTranslation(r) && !PickedOrientation(r) && PickFlagsOnly(r)
  {
    OptionalFrame(None, None, InvalidEntityId, PickNone)
  }

  /** Drops the translation override and its pick flag, and the picked entity; the orientation part stays. */
  function ResetPickedTranslation(f: OptionalFrame): (r: OptionalFrame)
    ensures !HasTranslationOverride(r) && !PickedTranslation(r) && !HasEntityOverride(r)
    ensures r.orientationOverride == f.orientationOverride
    ensures PickedOrientation(r) == PickedOrientation(f)
    ensures PickFlagsOnly(f) ==> PickFlagsOnly(r)
  {
    OptionalFrame(None, f.orientationOverride, InvalidEntityId, f.pickTypes & !PickTranslation)
  }

  /** Drops the orientation override and its pick flag, and the picked entity; the translation part stays. */
  function ResetPickedOrientation(f: OptionalFrame): (r: OptionalFrame)
    ensures !HasOrientationOverride(r) && !PickedOrientation(r) && !HasEntityOverride(r)
    ensures r.translationOverride == f.translationOverride
    ensures PickedTranslation(r) == PickedTranslation(f)
    ensures PickFlagsOnly(f) ==> PickFlagsOnly(r)
  {
    OptionalFrame(f.translationOverride, None, InvalidEntityId, f.pickTypes & !PickOrientation)
  }

  /** Resetting the two picked parts one after the other, in either order, is a full reset. */
  lemma ResetBothPartsIsReset(f: OptionalFrame)
    requires PickFlagsOnly(f)
    ensures ResetPickedOrientation(ResetPickedTranslation(f)) == Reset(f)
    ensures ResetPickedTranslation(ResetPickedOrientation(f)) == Reset(f)
  {
    var p := f.pickTypes;
    assert p & !PickTranslation & !PickOrientation == 0;
    assert p & !PickOrientation & !PickTranslation == 0;
  }

  /** A reset frame is unchanged by any further reset. */
  lemma ResetIsFinal(f: OptionalFrame)
    ensures ResetPickedTranslation(Reset(f)) == Reset(f)
    ensures ResetPickedOrientation(Reset(f)) == Reset(f)
    ensures Reset(Reset(f)) == Reset(f)
  {
  }

  // ---------------------------------------------------------------------------------
  // Manipulator modes and picking

  datatype Mode = Translation | Rotation | Scale

  /** The mode's position in its enumeration. */
  function ModeIndex(m: Mode): (r: nat)
    ensures r < 3
  {
    match m
    case Translation => 0
    case Rotation => 1
    case Scale => 2
  }

  function ModeFromIndex(i: nat): (m: Mode)
    requires i < 3
    ensures ModeIndex(m) == i
  {
    if i == 0 then Translation else if i == 1 then Rotation else Scale
  }

  /**
   * Records that the override frame was picked from `entity`: in rotation mode both the
   * orientation and the translation are marked as picked, in translation mode only the
   * translation, and in scale mode nothing changes.
   */
  function RecordPick(f: OptionalFrame, mode: Mode, entity: EntityId): (r: OptionalFrame)
    ensures mode == Scale ==> r == f
    ensures mode != Scale ==> PickedTranslation(r) && r.pickedEntityIdOverride == entity
    ensures PickedOrientation(r) <==> PickedOrientation(f) || mode == Rotation
    ensures r.translationOverride == f.translationOverride && r.orientationOverride == f.orientationOverride
    ensures PickFlagsOnly(f) ==> PickFlagsOnly(r)
  {
    match mode
    case Rotation => f.(pickTypes := f.pickTypes | PickOrientation | PickTranslation, pickedEntityIdOverride := entity)
    case Translation => f.(pickTypes := f.pickTypes | PickTranslation, pickedEntityIdOverride := entity)
    case Scale => f
  }

  /** Picking the same entity twice in the same mode is picking it once. */
  lemma RecordPickIdempotent(f: OptionalFrame, mode: Mode, entity: EntityId)
    ensures RecordPick(RecordPick(f, mode, entity), mode, entity) == RecordPick(f, mode, entity)
  {
    var p := f.pickTypes;
    assert p | PickTranslation | PickTranslation == p | PickTranslation;
    assert p | PickOrientation | PickTranslation | PickOrientation | PickTranslation
        == p | PickOrientation | PickTranslation;
  }

  /** Resetting the translation after a pick in translation mode restores the orientation flag the frame had. */
  lemma ResetUndoesTranslationPick(f: OptionalFrame, entity: EntityId)
    ensures ResetPickedTranslation(RecordPick(f, Translation, entity)) == ResetPickedTranslation(f)
  {
    var p := f.pickTypes;
    assert (p | PickTranslation) & !PickTranslation == p & !PickTranslation;
  }

  // ---------------------------------------------------------------------------------
  // Pivot mode

  datatype Pivot = Object | Center

  /** Swaps the object pivot and the centre pivot. */
  function TogglePivotMode(p: Pivot): (r: Pivot)
    ensures r != p
  {
    match p
    case Object => Center
    case Center => Object
  }

  lemma TogglePivotModeTwice(p: Pivot)
    ensures TogglePivotMode(TogglePivotMode(p)) == p
  {
  }

  // ---------------------------------------------------------------------------------
  // Reference frames

  datatype ReferenceFrame = Local | Parent | World

  datatype KeyboardModifiers = KeyboardModifiers(shift: bool, ctrl: bool, alt: bool)

  /** Shift alone selects the world frame, Alt alone the local frame, anything else the parent frame. */
  function ReferenceFrameFromModifiers(m: KeyboardModifiers): (r: ReferenceFrame)
    ensures r == World <==> m.shift && !m.alt
    ensures r == Local <==> m.alt && !m.shift
    ensures r == Parent <==> m.shift == m.alt
  {
    if m.shift && !m.alt then World
    else if m.alt && !m.shift then Local
    else Parent
  }

  /** Ctrl plays no part in choosing the frame, and swapping Shift and Alt swaps the world and local frames. */
  lemma ReferenceFrameModifierSymmetry(m: KeyboardModifiers, ctrl: bool)
    ensures ReferenceFrameFromModifiers(m.(ctrl := ctrl)) == ReferenceFrameFromModifiers(m)
    ensures ReferenceFrameFromModifiers(KeyboardModifiers(m.alt, m.ctrl, m.shift)) ==
      match ReferenceFrameFromModifiers(m)
      case World => Local
      case Local => World
      case Parent => Parent
  {
  }

  /** The frame a manipulator works in: the locked frame when there is one, else the modifiers' frame. */
  function EffectiveReferenceFrame(spaceLock: Option<ReferenceFrame>, m: KeyboardModifiers): (r: ReferenceFrame)
    ensures spaceLock.Some? ==> r == spaceLock.value
    ensures spaceLock.None? ==> r == ReferenceFrameFromModifiers(m)
  {
    spaceLock.GetOr(ReferenceFrameFromModifiers(m))
  }

  // ---------------------------------------------------------------------------------
  // The space buttons

  type ButtonId = nat

  /** The viewport's three space buttons and the frame currently locked, if any. */
  datatype SpaceCluster = SpaceCluster(
    worldButtonId: ButtonId,
    parentButtonId: ButtonId,
    localButtonId: ButtonId,
    spaceLock: Option<ReferenceFrame>)

  /** The frame a button stands for; the local button is checked first, then parent, then world. */
  function ButtonFrame(c: SpaceCluster, button: ButtonId): (r: Option<ReferenceFrame>)
    ensures r == Some(Local) <==> button == c.localButtonId
    ensures r == Some(Parent) <==> button != c.localButtonId && button == c.parentButtonId
    ensures r == Some(World) <==> button != c.localButtonId && button != c.parentButtonId && button == c.worldButtonId
    ensures r.None? <==> button !in {c.localButtonId, c.parentButtonId, c.worldButtonId}
  {
    if button == c.localButtonId then Some(Local)
    else if button == c.parentButtonId then Some(Parent)
    else if button == c.worldButtonId then Some(World)
    else None
  }

  /**
   * A click on a space button: clicking the button of the locked frame unlocks it, clicking
   * another frame's button locks that frame, and any other button leaves the lock alone.
   * The second result is what the button's locked indicator is set to.
   */
  function OnSpaceButtonClicked(c: SpaceCluster, button: ButtonId): (r: (SpaceCluster, bool))
    ensures r.0.worldButtonId == c.worldButtonId && r.0.parentButtonId == c.parentButtonId
      && r.0.localButtonId == c.localButtonId
    ensures ButtonFrame(c, button).None? ==> r.0 == c
    ensures ButtonFrame(c, button).Some? && c.spaceLock == ButtonFrame(c, button) ==> r.0.spaceLock.None?
    ensures ButtonFrame(c, button).Some? && c.spaceLock != ButtonFrame(c, button) ==>
      r.0.spaceLock == ButtonFrame(c, button)
    ensures r.1 <==> r.0.spaceLock.Some?
  {
    var next := match ButtonFrame(c, button)
      case None => c
      case Some(frame) =>
        if c.spaceLock.Some? && c.spaceLock.value == frame then c.(spaceLock := None)
        else c.(spaceLock := Some(frame));
    (next, next.spaceLock.Some?)
  }

  /**
   * Two clicks on the same space button leave that frame locked when it was locked
   * before, and nothing locked otherwise.
   */
  lemma SpaceButtonTwice(c: SpaceCluster, button: ButtonId)
    requires ButtonFrame(c, button).Some?
    ensures OnSpaceButtonClicked(OnSpaceButtonClicked(c, button).0, button).0.spaceLock ==
      if c.spaceLock == ButtonFrame(c, button) then c.spaceLock else None
  {
  }

  /** Once a click locks a frame, every manipulator works in that frame whatever keys are held. */
  lemma LockedFrameOverridesModifiers(c: SpaceCluster, button: ButtonId, m: KeyboardModifiers)
    requires ButtonFrame(c, button).Some? && c.spaceLock != ButtonFrame(c, button)
    ensures EffectiveReferenceFrame(OnSpaceButtonClicked(c, button).0.spaceLock, m) == ButtonFrame(c, button).value
  {
  }

  // ---------------------------------------------------------------------------------
  // Mouse input

  datatype MouseEvent = Down | Up | Move | Wheel | DoubleClick
  datatype MouseButtons = MouseButtons(left: bool, middle: bool, right: bool)
  /** A mouse interaction; only the sign of the wheel delta matters here. */
  datatype MouseInteractionEvent = MouseInteractionEvent(
    event: MouseEvent,
    buttons: MouseButtons,
    modifiers: KeyboardModifiers,
    wheelDelta: int)
  datatype ClickOutcome = Nil | MoveOutcome | Click | Release

  predicate CycleManipulator(e: MouseInteractionEvent)
  {
    e.event == Wheel && e.modifiers.ctrl
  }

  predicate DeselectAll(e: MouseInteractionEvent)
  {
    e.event == DoubleClick && e.buttons.left
  }

  predicate GroupDitto(e: MouseInteractionEvent)
  {
    e.buttons.middle && e.event == Down && e.modifiers.ctrl && !e.modifiers.alt
  }

  predicate IndividualDitto(e: MouseInteractionEvent)
  {
    e.buttons.middle && e.event == Down && e.modifiers.alt && e.modifiers.ctrl
  }

  predicate SnapTerrain(e: MouseInteractionEvent)
  {
    e.buttons.middle && e.event == Down && (e.modifiers.alt || e.modifiers.ctrl)
  }

  predicate ManipulatorDitto(e: MouseInteractionEvent)
  {
    e.event == Down && e.buttons.left && e.modifiers.ctrl && e.modifiers.alt
  }

  predicate IndividualSelect(outcome: ClickOutcome)
  {
    outcome == Click
  }

  predicate AdditiveIndividualSelect(outcome: ClickOutcome, e: MouseInteractionEvent)
  {
    outcome == Click && e.modifiers.ctrl && !e.modifiers.alt
  }

  /**
   * How the middle-button gestures relate: group and individual ditto never fire together,
   * each is a terrain snap, and a terrain snap that is neither is Alt without Ctrl.
   */
  lemma DittoGesturesPartitionSnap(e: MouseInteractionEvent)
    ensures !(GroupDitto(e) && IndividualDitto(e))
    ensures GroupDitto(e) ==> SnapTerrain(e)
    ensures IndividualDitto(e) ==> SnapTerrain(e)
    ensures SnapTerrain(e) && !GroupDitto(e) && !IndividualDitto(e) <==>
      e.buttons.middle && e.event == Down && e.modifiers.alt && !e.modifiers.ctrl
  {
  }

  /**
   * Wheel cycling and double-click deselection never fire on the same event, nor does the
   * manipulator ditto with group ditto or wheel cycling; an additive select is a select.
   */
  lemma InputGesturesDisjoint(e: MouseInteractionEvent, outcome: ClickOutcome)
    ensures !(CycleManipulator(e) && DeselectAll(e))
    ensures !(ManipulatorDitto(e) && (GroupDitto(e) || CycleManipulator(e)))
    ensures AdditiveIndividualSelect(outcome, e) ==> IndividualSelect(outcome)
  {
  }

  // ---------------------------------------------------------------------------------
  // Mouse-wheel mode cycling

  /** The unsigned word the cycling arithmetic is done in. */
  const WordModulus: nat := 0x1_0000_0000_0000_0000
  /** Wheel cycling only visits the first two modes. */
  const ScrollBound: nat := 2

  /**
   * The mode index after one wheel step: the current index, the bound and a step of +1
   * for a downward turn or -1 otherwise are added as unsigned 64-bit words, so the -1
   * arrives as the word's largest value, and the sum is reduced modulo the bound.
   */
  function NextModeIndex(mode: Mode, wheelDelta: int): (r: nat)
    ensures r < ScrollBound
  {
    var step: nat := if wheelDelta < 0 then 1 else WordModulus - 1;
    ((ModeIndex(mode) + ScrollBound + step) % WordModulus) % ScrollBound
  }

  /** The mode a ctrl-wheel event switches to. */
  function CycleMode(mode: Mode, wheelDelta: int): (r: Mode)
    ensures r != Scale
  {
    ModeFromIndex(NextModeIndex(mode, wheelDelta))
  }

  /**
   * With two modes to cycle through, a step forward and a step back land on the same
   * mode: both wheel directions move to the next index modulo two.
   */
  lemma {:induction false} WheelDirectionIrrelevant(mode: Mode, wheelDelta: int)
    ensures NextModeIndex(mode, wheelDelta) == (ModeIndex(mode) + 1) % ScrollBound
  {
    var i := ModeIndex(mode);
    if wheelDelta >= 0 {
      assert (i + ScrollBound + (WordModulus - 1)) % WordModulus == i + 1;
    }
  }

  /** Cycling alternates translation and rotation, and leaves scale for rotation. */
  lemma CycleModeSwaps(mode: Mode, wheelDelta: int)
    ensures mode == Translation ==> CycleMode(mode, wheelDelta) == Rotation
    ensures mode == Rotation ==> CycleMode(mode, wheelDelta) == Translation
    ensures mode == Scale ==> CycleMode(mode, wheelDelta) == Rotation
    ensures CycleMode(CycleMode(mode, wheelDelta), wheelDelta) == if mode == Scale then Translation else mode
  {
    WheelDirectionIrrelevant(mode, wheelDelta);
    WheelDirectionIrrelevant(CycleMode(mode, wheelDelta), wheelDelta);
  }
}
