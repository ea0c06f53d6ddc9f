/** The hardware probe that `Light`'s constructor runs, written as functions
    of the filesystem view. Both the AIDL and the HIDL constructor run exactly
    this probe; they differ only in the registry they build from it. */
module Prober {
  import opened Sysfs

  /** The five member streams after probing. */
  datatype Handles = Handles(
    backlight: Handle,
    powerLed: Handle,
    powerLedState: Handle,
    buttonLeds: Handle,
    buttonLedsState: Handle)

  /** What the probe finds: the streams it leaves open and how many
      nvshieldled subdirectories qualified for a BUTTONS light. */
  datatype Probe = Probe(handles: Handles, buttons: nat)

  /** The index of the first directory in `dirs` whose `leaf` file opens, or
      `|dirs|` when none does. */
  function FirstIndex(fs: FileSystem, dirs: seq<Path>, leaf: string): (i: nat)
    ensures i <= |dirs|
    ensures i < |dirs| ==> Join(dirs[i], leaf) in fs.openable
    ensures forall j :: 0 <= j < i ==> Join(dirs[j], leaf) !in fs.openable
  {
    if dirs == [] then 0
    else if Join(dirs[0], leaf) in fs.openable then 0
    else 1 + FirstIndex(fs, dirs[1..], leaf)
  }

  /** The `leaf` file of the first directory in `dirs` where it opens. */
  function FirstOpenable(fs: FileSystem, dirs: seq<Path>, leaf: string): (h: Handle)
    ensures h.Some? <==> exists j :: 0 <= j < |dirs| && Join(dirs[j], leaf) in fs.openable
    ensures h.Some? ==> h.value in fs.openable
  {
    var i := FirstIndex(fs, dirs, leaf);
    if i < |dirs| then Some(Join(dirs[i], leaf)) else None
  }

  /** How the first index moves when one more directory is appended. */
  lemma FirstIndexSnoc(fs: FileSystem, dirs: seq<Path>, d: Path, leaf: string)
    ensures FirstIndex(fs, dirs + [d], leaf) ==
      if FirstIndex(fs, dirs, leaf) < |dirs| then FirstIndex(fs, dirs, leaf)
      else if Join(d, leaf) in fs.openable then |dirs|
      else |dirs| + 1
  {
    assert forall j :: 0 <= j < |dirs| ==> (dirs + [d])[j] == dirs[j];
    assert (dirs + [d])[|dirs|] == d;
  }

  /** Opening `leaf` of one more directory leaves the first match in place,
      or binds to the new directory's file when there was none. */
  lemma FirstOpenableSnoc(fs: FileSystem, dirs: seq<Path>, d: Path, leaf: string)
    ensures FirstOpenable(fs, dirs + [d], leaf) == Open(fs, FirstOpenable(fs, dirs, leaf), Join(d, leaf))
  {
    FirstIndexSnoc(fs, dirs, d, leaf);
  }

  /** One pass of the nvshieldled loop body: re-open all four streams on the
      files of subdirectory `sub`; only streams that are still closed bind. */
  function ShieldStep(fs: FileSystem, h: Handles, sub: Path): (r: Handles)
    ensures r.backlight == h.backlight
    ensures h.powerLed.Some? ==> r.powerLed == h.powerLed
    ensures h.powerLedState.Some? ==> r.powerLedState == h.powerLedState
    ensures h.buttonLeds.Some? ==> r.buttonLeds == h.buttonLeds
    ensures h.buttonLedsState.Some? ==> r.buttonLedsState == h.buttonLedsState
  {
    h.(powerLed := Open(fs, h.powerLed, Join(sub, NVSHIELDLED_POWER_NODE)),
       powerLedState := Open(fs, h.powerLedState, Join(sub, NVSHIELDLED_POWER_STATE)),
       buttonLeds := Open(fs, h.buttonLeds, Join(sub, NVSHIELDLED_BUTTONS_NODE)),
       buttonLedsState := Open(fs, h.buttonLedsState, Join(sub, NVSHIELDLED_BUTTONS_STATE)))
  }

  /** The test after each pass: a BUTTONS light is added when either state
      stream is open, whichever pass opened it. */
  predicate ButtonsQualify(h: Handles) {
    h.powerLedState.Some? || h.buttonLedsState.Some?
  }

  /** The nvshieldled loop run over `subs` from streams `h`. */
  function ShieldScan(fs: FileSystem, h: Handles, subs: seq<Path>): (p: Probe)
    ensures p.buttons <= |subs|
    decreases |subs|
  {
    if subs == [] then Probe(h, 0)
    else
      var before := ShieldScan(fs, h, subs[..|subs| - 1]);
      var after := ShieldStep(fs, before.handles, subs[|subs| - 1]);
      Probe(after, before.buttons + if ButtonsQualify(after) then 1 else 0)
  }

  /** The scan over the first `k + 1` subdirectories is the scan over the
      first `k` followed by one more pass. */
  lemma ShieldScanPrefix(fs: FileSystem, h: Handles, subs: seq<Path>, k: nat)
    requires k < |subs|
    ensures var before := ShieldScan(fs, h, subs[..k]);
      var after := ShieldStep(fs, before.handles, subs[k]);
      ShieldScan(fs, h, subs[..k + 1]) == Probe(after, before.buttons + if ButtonsQualify(after) then 1 else 0)
  {
    assert subs[..k + 1][..k] == subs[..k];
  }

  /** Streams closed except for the backlight one. */
  function OnlyBacklight(b: Handle): Handles {
    Handles(b, None, None, None, None)
  }

  /** The whole probe: the backlight directory, then roth-led, else the
      lightbar (with its effects node), else every nvshieldled subdirectory.
      A missing backlight directory makes the directory iterator throw, so
      the probe is only defined when it exists. */
  function Discover(fs: FileSystem): Probe
    requires BACKLIGHT_DIR in fs.dirs
  {
    var b := FirstOpenable(fs, fs.dirs[BACKLIGHT_DIR], BACKLIGHT_NODE);
    var roth := Open(fs, None, ROTHLED_NODE);
    if roth.Some? then Probe(OnlyBacklight(b).(powerLed := roth), 0)
    else
      var lightbar := Open(fs, None, LIGHTBAR_NODE);
      if lightbar.Some? then
        Probe(OnlyBacklight(b).(powerLed := lightbar, powerLedState := Open(fs, None, LIGHTBAR_STATE)), 0)
      else if Exists(fs, NVSHIELDLED_DIR) then ShieldScan(fs, OnlyBacklight(b), fs.dirs[NVSHIELDLED_DIR])
      else Probe(OnlyBacklight(b), 0)
  }

  /** The first subdirectory after whose pass a state stream is open, or
      `|subs|` when none qualifies. */
  function FirstQualifying(fs: FileSystem, subs: seq<Path>): (i: nat)
    ensures i <= |subs|
  {
    var p, q := FirstIndex(fs, subs, NVSHIELDLED_POWER_STATE), FirstIndex(fs, subs, NVSHIELDLED_BUTTONS_STATE);
    if p <= q then p else q
  }

  /** Starting from closed LED streams, each stream of the nvshieldled loop
      ends up bound to its file in the first subdirectory where that file
      opens, and the backlight stream is not touched. */
  lemma {:induction false} ShieldScanBindsFirst(fs: FileSystem, b: Handle, subs: seq<Path>)
    ensures ShieldScan(fs, OnlyBacklight(b), subs).handles == Handles(
      b,
      FirstOpenable(fs, subs, NVSHIELDLED_POWER_NODE),
      FirstOpenable(fs, subs, NVSHIELDLED_POWER_STATE),
      FirstOpenable(fs, subs, NVSHIELDLED_BUTTONS_NODE),
      FirstOpenable(fs, subs, NVSHIELDLED_BUTTONS_STATE))
    decreases |subs|
  {
    if subs != [] {
      var init, last := subs[..|subs| - 1], subs[|subs| - 1];
      assert subs == init + [last];
      ShieldScanBindsFirst(fs, b, init);
      FirstOpenableSnoc(fs, init, last, NVSHIELDLED_POWER_NODE);
      FirstOpenableSnoc(fs, init, last, NVSHIELDLED_POWER_STATE);
      FirstOpenableSnoc(fs, init, last, NVSHIELDLED_BUTTONS_NODE);
      FirstOpenableSnoc(fs, init, last, NVSHIELDLED_BUTTONS_STATE);
    }
  }

  /** Because a state stream, once open, stays open, every subdirectory from
      the first qualifying one on adds a BUTTONS light: the count is the
      number of subdirectories from that one to the end. */
  lemma {:induction false} ShieldScanCount(fs: FileSystem, b: Handle, subs: seq<Path>)
    ensures ShieldScan(fs, OnlyBacklight(b), subs).buttons == |subs| - FirstQualifying(fs, subs)
    decreases |subs|
  {
    if subs != [] {
      var init, last := subs[..|subs| - 1], subs[|subs| - 1];
      assert subs == init + [last];
      ShieldScanCount(fs, b, init);
      ShieldScanBindsFirst(fs, b, subs);
      FirstIndexSnoc(fs, init, last, NVSHIELDLED_POWER_STATE);
      FirstIndexSnoc(fs, init, last, NVSHIELDLED_BUTTONS_STATE);
      var before, after := FirstQualifying(fs, init), FirstQualifying(fs, subs);
      assert ButtonsQualify(ShieldScan(fs, OnlyBacklight(b), subs).handles) <==> after < |subs|;
      assert before < |init| ==> after == before;
      assert before == |init| ==> after >= |init|;
    }
  }

  /** The backlight stream binds to the first backlight-directory entry whose
      `brightness` file opens, whichever power-LED branch is then taken; no
      later entry is tried. */
  lemma BacklightBindsFirst(fs: FileSystem)
    requires BACKLIGHT_DIR in fs.dirs
    ensures Discover(fs).handles.backlight == FirstOpenable(fs, fs.dirs[BACKLIGHT_DIR], BACKLIGHT_NODE)
  {
    var b := FirstOpenable(fs, fs.dirs[BACKLIGHT_DIR], BACKLIGHT_NODE);
    if Exists(fs, NVSHIELDLED_DIR) {
      ShieldScanBindsFirst(fs, b, fs.dirs[NVSHIELDLED_DIR]);
    }
  }

  /** The power-LED probe tries roth-led, then the lightbar, then the
      nvshieldled subdirectories, and takes exactly one branch. Only the
      lightbar branch opens its effects node as the power state, and only the
      nvshieldled branch can open button streams or count BUTTONS lights. */
  lemma PowerProbeOrder(fs: FileSystem)
    requires BACKLIGHT_DIR in fs.dirs
    ensures var p, b := Discover(fs), FirstOpenable(fs, fs.dirs[BACKLIGHT_DIR], BACKLIGHT_NODE);
      && (ROTHLED_NODE in fs.openable ==>
            p == Probe(Handles(b, Some(ROTHLED_NODE), None, None, None), 0))
      && (ROTHLED_NODE !in fs.openable && LIGHTBAR_NODE in fs.openable ==>
            p == Probe(Handles(b, Some(LIGHTBAR_NODE),
                               if LIGHTBAR_STATE in fs.openable then Some(LIGHTBAR_STATE) else None,
                               None, None), 0))
      && (ROTHLED_NODE !in fs.openable && LIGHTBAR_NODE !in fs.openable && !Exists(fs, NVSHIELDLED_DIR) ==>
            p == Probe(Handles(b, None, None, None, None), 0))
  {
  }

  /** On nvshieldled hardware each stream is bound to its file in the first
      subdirectory where that file opens, and the BUTTONS count runs from the
      first subdirectory with an openable `state` or `state2` to the end. */
  lemma ShieldProbe(fs: FileSystem)
    requires BACKLIGHT_DIR in fs.dirs
    requires ROTHLED_NODE !in fs.openable && LIGHTBAR_NODE !in fs.openable && Exists(fs, NVSHIELDLED_DIR)
    ensures var p, subs := Discover(fs), fs.dirs[NVSHIELDLED_DIR];
      && p.handles == Handles(
           FirstOpenable(fs, fs.dirs[BACKLIGHT_DIR], BACKLIGHT_NODE),
           FirstOpenable(fs, subs, NVSHIELDLED_POWER_NODE),
           FirstOpenable(fs, subs, NVSHIELDLED_POWER_STATE),
           FirstOpenable(fs, subs, NVSHIELDLED_BUTTONS_NODE),
           FirstOpenable(fs, subs, NVSHIELDLED_BUTTONS_STATE))
      && p.buttons == |subs| - FirstQualifying(fs, subs)
  {
    var b := FirstOpenable(fs, fs.dirs[BACKLIGHT_DIR], BACKLIGHT_NODE);
    ShieldScanBindsFirst(fs, b, fs.dirs[NVSHIELDLED_DIR]);
    ShieldScanCount(fs, b, fs.dirs[NVSHIELDLED_DIR]);
  }

  /** A BUTTONS light is registered exactly when the nvshieldled branch runs
      and some subdirectory has an openable `state` or `state2` file. */
  lemma ButtonsIffStateNode(fs: FileSystem)
    requires BACKLIGHT_DIR in fs.dirs
    ensures Discover(fs).buttons > 0 <==>
      && ROTHLED_NODE !in fs.openable && LIGHTBAR_NODE !in fs.openable && Exists(fs, NVSHIELDLED_DIR)
      && exists j :: 0 <= j < |fs.dirs[NVSHIELDLED_DIR]| &&
           (|| Join(fs.dirs[NVSHIELDLED_DIR][j], NVSHIELDLED_POWER_STATE) in fs.openable
            || Join(fs.dirs[NVSHIELDLED_DIR][j], NVSHIELDLED_BUTTONS_STATE) in fs.openable)
  {
    if ROTHLED_NODE !in fs.openable && LIGHTBAR_NODE !in fs.openable && Exists(fs, NVSHIELDLED_DIR) {
      var subs := fs.dirs[NVSHIELDLED_DIR];
      ShieldProbe(fs);
      var i := FirstQualifying(fs, subs);
      if i < |subs| {
        assert Join(subs[i], NVSHIELDLED_POWER_STATE) in fs.openable
            || Join(subs[i], NVSHIELDLED_BUTTONS_STATE) in fs.openable;
      }
    }
  }
}
