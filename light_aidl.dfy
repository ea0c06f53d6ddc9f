/** The AIDL front-end: `aidl::android::hardware::light::impl::nvidia::Light`,
    whose registry maps integer light ids to a descriptor and a callback. */
module AidlLight {
  import opened Sysfs
  import opened Luma
  import opened Prober
  import opened Dispatch

  /** The light types of the AIDL light interface. */
  datatype LightType = BACKLIGHT | KEYBOARD | BUTTONS | BATTERY | NOTIFICATIONS | ATTENTION | BLUETOOTH | WIFI | MICROPHONE | CAMERA

  /** `HwLight`: the descriptor the host lists and addresses lights by. */
  datatype HwLight = HwLight(id: int, ordinal: int, lightType: LightType)

  /** `HwLightState`: only the packed colour matters to this HAL. */
  datatype HwLightState = HwLightState(color: uint32)

  /** `LightData`: a descriptor and the callback bound to it. */
  datatype LightData = LightData(data: HwLight, callback: Callback)

  /** `ndk::ScopedAStatus`: ok, or an exception code. */
  datatype ScopedAStatus = Ok | Exception(code: int)

  const EX_SERVICE_SPECIFIC: int := -8

  function BacklightEntry(): LightData {
    LightData(HwLight(0, 0, BACKLIGHT), BacklightFn)
  }

  function ButtonsEntry(id: int): LightData {
    LightData(HwLight(id, 0, BUTTONS), ButtonsFn)
  }

  /** The registry the constructor builds when `buttons` nvshieldled
      subdirectories qualified: the backlight entry emplaced at id 0, then
      one BUTTONS entry emplaced at each next id in turn. */
  function Registry(buttons: nat): map<int, LightData> {
    if buttons == 0 then Emplace(map[], 0, BacklightEntry())
    else Emplace(Registry(buttons - 1), buttons, ButtonsEntry(buttons))
  }

  /** The ids of the registry are exactly 0..buttons, so each emplace above
      inserts a new entry; each entry's descriptor carries its own key as id
      and ordinal 0; id 0 is the backlight and every other id a BUTTONS
      light. */
  lemma {:induction false} RegistryShape(buttons: nat)
    ensures var r := Registry(buttons);
      && (forall id :: id in r <==> 0 <= id <= buttons)
      && 0 in r && r[0] == LightData(HwLight(0, 0, BACKLIGHT), BacklightFn)
      && (forall id :: id in r && id != 0 ==> r[id] == LightData(HwLight(id, 0, BUTTONS), ButtonsFn))
      && (forall id :: id in r ==> r[id].data.id == id && r[id].data.ordinal == 0)
  {
    if buttons > 0 {
      RegistryShape(buttons - 1);
    }
  }

  /** Ids are unique and contiguous, so the registry holds one light more than
      there are BUTTONS lights. */
  lemma {:induction false} RegistrySize(buttons: nat)
    ensures |Registry(buttons)| == buttons + 1
  {
    if buttons > 0 {
      var before := Registry(buttons - 1);
      RegistrySize(buttons - 1);
      RegistryShape(buttons - 1);
      EmplaceNeverOverwrites(before, buttons, ButtonsEntry(buttons));
    }
  }

  /** The descriptors held in `m` under the keys `ks`, each once per key. */
  ghost function DescriptorsOf(m: map<int, LightData>, ks: set<int>): multiset<HwLight>
    requires ks <= m.Keys
    decreases ks
  {
    if exists k :: k in ks then
      var k :| k in ks;
      multiset{m[k].data} + DescriptorsOf(m, ks - {k})
    else multiset{}
  }

  /** Any key may be taken out first. */
  lemma {:induction false} DescriptorsOfPick(m: map<int, LightData>, ks: set<int>, k: int)
    requires ks <= m.Keys && k in ks
    ensures DescriptorsOf(m, ks) == multiset{m[k].data} + DescriptorsOf(m, ks - {k})
    decreases ks
  {
    var j :| j in ks && DescriptorsOf(m, ks) == multiset{m[j].data} + DescriptorsOf(m, ks - {j});
    if j != k {
      DescriptorsOfPick(m, ks - {j}, k);
      DescriptorsOfPick(m, ks - {k}, j);
      assert ks - {j} - {k} == ks - {k} - {j};
    }
  }

  class Light {
    var backlight: Handle
    var powerLed: Handle
    var powerLedState: Handle
    var buttonLeds: Handle
    var buttonLedsState: Handle
    /** `mLedBrightness`, an `int8_t`. */
    var ledBrightness: int8
    /** `mLights`. */
    var lights: map<int, LightData>
    /** Every write made to a node, oldest first. */
    ghost var Log: seq<Write>

    /** The five streams. */
    function Streams(): Handles
      reads this
    {
      Handles(backlight, powerLed, powerLedState, buttonLeds, buttonLedsState)
    }

    /** `Light::Light()`: register the backlight at id 0, probe the hardware,
        register a BUTTONS light for each qualifying nvshieldled subdirectory,
        and read the remembered brightness from the power node when it opened.
        `powerReading` is the value that read yields. */
    constructor (fs: FileSystem, powerReading: int8)
      requires BACKLIGHT_DIR in fs.dirs
      ensures Streams() == Discover(fs).handles
      ensures lights == Registry(Discover(fs).buttons)
      ensures ledBrightness == if powerLed.Some? then powerReading else 0
      ensures Log == []
    {
      backlight, powerLed, powerLedState, buttonLeds, buttonLedsState := None, None, None, None, None;
      ledBrightness := 0;
      lights := map[];
      Log := [];
      new;
      var id := 0;

      // BACKLIGHT is registered before probing, whether or not a backlight node opens.
      lights := Emplace(lights, id, LightData(HwLight(id, 0, BACKLIGHT), BacklightFn));
      id := id + 1;

      ProbeBacklight(fs);

      powerLed := Open(fs, powerLed, ROTHLED_NODE);
      if powerLed.None? {
        powerLed := Open(fs, powerLed, LIGHTBAR_NODE);
        if powerLed.Some? {
          powerLedState := Open(fs, powerLedState, LIGHTBAR_STATE);
        } else if Exists(fs, NVSHIELDLED_DIR) {
          id := ProbeShieldLeds(fs, id);
        }
      }

      if powerLed.Some? {
        ledBrightness := powerReading;
      } else {
        ledBrightness := 0;
      }
    }

    /** The constructor's backlight loop: open `brightness` in each entry of
        the backlight directory until one opens. */
    method ProbeBacklight(fs: FileSystem)
      requires BACKLIGHT_DIR in fs.dirs && backlight.None?
      modifies this`backlight
      ensures backlight == FirstOpenable(fs, fs.dirs[BACKLIGHT_DIR], BACKLIGHT_NODE)
    {
      var entries := fs.dirs[BACKLIGHT_DIR];
      var i := 0;
      while i < |entries|
        invariant 0 <= i <= |entries|
        invariant backlight.None? && FirstIndex(fs, entries, BACKLIGHT_NODE) >= i
      {
        backlight := Open(fs, backlight, Join(entries[i], BACKLIGHT_NODE));
        if backlight.Some? {
          break;
        }
        i := i + 1;
      }
    }

    /** The constructor's nvshieldled loop: re-open the four LED streams in
        each subdirectory and, whenever a state stream is open after that,
        emplace a BUTTONS light at the next id. Returns the next free id. */
    method ProbeShieldLeds(fs: FileSystem, id0: int) returns (id: int)
      requires Exists(fs, NVSHIELDLED_DIR)
      requires id0 >= 1 && lights == Registry(id0 - 1)
      modifies this`powerLed, this`powerLedState, this`buttonLeds, this`buttonLedsState, this`lights
      ensures var p := ShieldScan(fs, old(Streams()), fs.dirs[NVSHIELDLED_DIR]);
        Streams() == p.handles && id == id0 + p.buttons && lights == Registry(id - 1)
    {
      id := id0;
      var subs := fs.dirs[NVSHIELDLED_DIR];
      ghost var start := Streams();
      var k := 0;
      while k < |subs|
        invariant 0 <= k <= |subs|
        invariant var p := ShieldScan(fs, start, subs[..k]);
          Streams() == p.handles && id == id0 + p.buttons && lights == Registry(id - 1)
      {
        ShieldScanPrefix(fs, start, subs, k);
        var node := subs[k];
        powerLed := Open(fs, powerLed, Join(node, NVSHIELDLED_POWER_NODE));
        powerLedState := Open(fs, powerLedState, Join(node, NVSHIELDLED_POWER_STATE));
        buttonLeds := Open(fs, buttonLeds, Join(node, NVSHIELDLED_BUTTONS_NODE));
        buttonLedsState := Open(fs, buttonLedsState, Join(node, NVSHIELDLED_BUTTONS_STATE));
        if powerLedState.Some? || buttonLedsState.Some? {
          lights := Emplace(lights, id, LightData(HwLight(id, 0, BUTTONS), ButtonsFn));
          id := id + 1;
        }
        k := k + 1;
      }
      assert subs[..k] == subs;
    }

    /** `setLightState`: an unregistered id is rejected with
        EX_SERVICE_SPECIFIC and changes nothing; a registered id runs exactly
        the callback bound to it and returns ok. */
    method SetLightState(id: int, state: HwLightState) returns (status: ScopedAStatus)
      modifies this`ledBrightness, this`Log
      ensures id !in lights ==>
        status == Exception(EX_SERVICE_SPECIFIC) && Log == old(Log) && ledBrightness == old(ledBrightness)
      ensures id in lights ==>
        var o := Invoke(lights[id].callback, Streams(), old(ledBrightness), RgbToBrightness(state.color));
        status == Ok && Log == old(Log) + o.writes && ledBrightness == o.ledBrightness
    {
      if id in lights {
        match lights[id].callback {
          case BacklightFn => SetBacklight(state);
          case ButtonsFn => SetButtonsLight(state);
        }
        return Ok;
      }
      return Exception(EX_SERVICE_SPECIFIC);
    }

    /** `getLights`: every registered descriptor, once per id, in whatever
        order the map yields them; nothing changes. */
    method GetLights() returns (result: seq<HwLight>)
      ensures multiset(result) == DescriptorsOf(lights, lights.Keys)
    {
      result := [];
      var todo := lights.Keys;
      while exists id :: id in todo
        invariant todo <= lights.Keys
        invariant multiset(result) + DescriptorsOf(lights, todo) == DescriptorsOf(lights, lights.Keys)
        decreases todo
      {
        var id :| id in todo;
        DescriptorsOfPick(lights, todo, id);
        result := result + [lights[id].data];
        todo := todo - {id};
      }
    }

    /** `setBacklight`, run under the lock as one step. */
    method SetBacklight(state: HwLightState)
      modifies this`Log
      ensures Log == old(Log) + BacklightWrites(Streams(), ledBrightness, RgbToBrightness(state.color))
    {
      var brightness := RgbToBrightness(state.color);
      if powerLedState.Some? {
        Log := Log + [Write(PowerLedStateNode, powerLedState.value, Text(if brightness != 0 then "normal" else "breathe"))];
      } else if powerLed.Some? {
        Log := Log + [Write(PowerLedNode, powerLed.value, Num(if brightness != 0 then ledBrightness as int else 0))];
      }
      if backlight.Some? {
        Log := Log + [Write(BacklightNode, backlight.value, Num(brightness))];
      }
    }

    /** `setButtonsLight`, run under the lock as one step. */
    method SetButtonsLight(state: HwLightState)
      modifies this`ledBrightness, this`Log
      ensures ledBrightness == ToInt8(RgbToBrightness(state.color))
      ensures Log == old(Log) + ButtonsWrites(Streams(), RgbToBrightness(state.color))
    {
      ledBrightness := ToInt8(RgbToBrightness(state.color));
      if buttonLeds.Some? && ledBrightness != 0 {
        Log := Log + [Write(ButtonLedsNode, buttonLeds.value, Char(ledBrightness as int))];
      }
    }
  }

  /** Whatever hardware is found, the backlight descriptor (id 0) is
      registered, routed to the backlight callback and listed. */
  lemma BacklightAlwaysRegistered(fs: FileSystem)
    requires BACKLIGHT_DIR in fs.dirs
    ensures var r := Registry(Discover(fs).buttons);
      && 0 in r && r[0].data == HwLight(0, 0, BACKLIGHT) && r[0].callback == BacklightFn
      && HwLight(0, 0, BACKLIGHT) in DescriptorsOf(r, r.Keys)
  {
    var r := Registry(Discover(fs).buttons);
    RegistryShape(Discover(fs).buttons);
    DescriptorsOfPick(r, r.Keys, 0);
  }

  /** After probing, the ids run 0..n-1 where n is one more than the number
      of qualifying nvshieldled subdirectories; on roth-led or lightbar
      hardware only the backlight is registered. */
  lemma RegistryAfterProbe(fs: FileSystem)
    requires BACKLIGHT_DIR in fs.dirs
    ensures var buttons := Discover(fs).buttons;
      var r := Registry(buttons);
      && |r| == buttons + 1
      && (forall id :: id in r <==> 0 <= id <= buttons)
      && (ROTHLED_NODE in fs.openable || LIGHTBAR_NODE in fs.openable ==> r == map[0 := BacklightEntry()])
  {
    RegistrySize(Discover(fs).buttons);
    RegistryShape(Discover(fs).buttons);
  }
}
