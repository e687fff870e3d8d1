/** Progressive rendering in the example applications: how many samples a frame
    adds to the accumulated image, and when the accumulation starts over. The
    same logic appears in the Cornell box and the glTF viewer. */
module SampleAccounting {
  import opened Wrappers

  /** The settings the accounting reads from the GUI state. */
  datatype SampleSettings = SampleSettings(
    numberOfSamples: nat, maxNumberOfSamples: nat, acc: bool, heatmap: bool)

  function Min(a: nat, b: nat): nat { if a <= b then a else b }

  /** Samples to take this frame: none once the maximum is reached, otherwise the
      per-frame number, cut down so the maximum is not passed. */
  function FrameSamples(numberOfSamples: nat, maxNumberOfSamples: nat, total: nat): (r: nat)
    ensures r <= numberOfSamples
    ensures total < maxNumberOfSamples ==> total + r <= maxNumberOfSamples
    ensures maxNumberOfSamples <= total ==> r == 0
    ensures total < maxNumberOfSamples && total + numberOfSamples <= maxNumberOfSamples ==> r == numberOfSamples
    ensures total < maxNumberOfSamples && total + numberOfSamples > maxNumberOfSamples ==> total + r == maxNumberOfSamples
  {
    if maxNumberOfSamples <= total then 0 else Min(maxNumberOfSamples - total, numberOfSamples)
  }

  /** The `update` step: compute this frame's samples from the old total, restart
      the total when accumulation is off or the heat map is shown, then add them.
      Returns the new total and this frame's sample count. */
  function Update(s: SampleSettings, total: nat): (r: (nat, nat))
    ensures r.1 == FrameSamples(s.numberOfSamples, s.maxNumberOfSamples, total)
    ensures (!s.acc || s.heatmap) ==> r.0 == r.1
    ensures (s.acc && !s.heatmap) ==> r.0 == total + r.1
  {
    var n := FrameSamples(s.numberOfSamples, s.maxNumberOfSamples, total);
    var base := if !s.acc || s.heatmap then 0 else total;
    (base + n, n)
  }

  /** The accumulated total never passes the maximum once below it, and it stops
      growing once the maximum is reached. */
  lemma UpdateBounded(s: SampleSettings, total: nat)
    ensures total <= s.maxNumberOfSamples ==> Update(s, total).0 <= s.maxNumberOfSamples
    ensures s.acc && !s.heatmap && total >= s.maxNumberOfSamples ==> Update(s, total).0 == total
  {
  }

  /** Since the total stays within `u32` whenever the maximum does, the `+=` of the
      source cannot overflow. */
  lemma UpdateFitsU32(s: SampleSettings, total: nat)
    requires s.maxNumberOfSamples <= 0xFFFF_FFFF && total <= 0xFFFF_FFFF
    ensures Update(s, total).0 <= 0xFFFF_FFFF
  {
  }

  /** What the application remembers between frames: the accumulated total, the
      camera and the GUI state seen last. */
  datatype Tracker<C, G> = Tracker(total: nat, oldCamera: Option<C>, guiState: Option<G>)

  /** The state of a freshly built application. */
  function Fresh<C, G>(): (r: Tracker<C, G>)
    ensures r.total == 0 && r.oldCamera.None? && r.guiState.None?
  {
    Tracker(0, None, None)
  }

  /** `state_change`: record the first camera and GUI state seen; a different
      camera resets the total and is recorded; a different GUI state rebuilds the
      application when the scene changed, is recorded and resets the total.
      `sceneOf` names the scene a GUI state selects. Returns the new tracker and
      whether the scene is rebuilt. */
  function StateChange<C(==), G(==)>(t: Tracker<C, G>, camera: C, gui: G, sceneOf: G -> nat)
    : (r: (Tracker<C, G>, bool))
    ensures r.0.guiState == Some(gui)
    ensures r.0.total == t.total || r.0.total == 0
    ensures r.1 ==> t.guiState.Some? && sceneOf(t.guiState.value) != sceneOf(gui)
    ensures r.1 ==> r.0.total == 0 && r.0.oldCamera.None?
    ensures !r.1 ==> r.0.oldCamera == Some(camera)
  {
    var t1 := if t.oldCamera.None? then t.(oldCamera := Some(camera)) else t;
    var t2 := if t1.guiState.None? then t1.(guiState := Some(gui)) else t1;
    var t3 := if t2.oldCamera.Some? && t2.oldCamera.value != camera
              then t2.(oldCamera := Some(camera), total := 0) else t2;
    if t3.guiState.Some? && t3.guiState.value != gui then
      var rebuild := sceneOf(t3.guiState.value) != sceneOf(gui);
      var t4 := if rebuild then Fresh() else t3;
      (t4.(guiState := Some(gui), total := 0), rebuild)
    else (t3, false)
  }

  /** The first call only records the baselines; the total is kept. */
  lemma FirstStateChangeRecords<C, G>(total: nat, camera: C, gui: G, sceneOf: G -> nat)
    ensures StateChange(Tracker(total, None, None), camera, gui, sceneOf)
         == (Tracker(total, Some(camera), Some(gui)), false)
  {
  }

  /** After the baselines are recorded: any change of camera or GUI state resets
      the total and records the new values; the scene is rebuilt exactly when the
      GUI state selects another scene; with no change nothing happens. */
  lemma StateChangeEffect<C, G>(t: Tracker<C, G>, camera: C, gui: G, sceneOf: G -> nat)
    requires t.oldCamera.Some? && t.guiState.Some?
    ensures var (t', rebuild) := StateChange(t, camera, gui, sceneOf);
      && (rebuild <==> t.guiState.value != gui && sceneOf(t.guiState.value) != sceneOf(gui))
      && t'.guiState == Some(gui)
      && (t.oldCamera.value == camera && t.guiState.value == gui ==> t' == t)
      && (t.oldCamera.value != camera || t.guiState.value != gui ==> t'.total == 0)
      && (!rebuild ==> t'.oldCamera == Some(camera))
      && (rebuild ==> t'.oldCamera.None?)
  {
  }
}
