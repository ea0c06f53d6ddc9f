/** The HIDL front-end: `android::hardware::light::V2_0::implementation::Light`,
    whose registry maps light types to a callback. It runs the same probe and
    binds the same two callbacks as the AIDL front-end. */
module HidlLight {
  import opened Sysfs
  import opened Luma
  import opened Prober
  import opened Dispatch

  /** The light types of the light 2.0 interface. */
  datatype Type = BACKLIGHT | KEYBOARD | BUTTONS | BATTERY | NOTIFICATIONS | ATTENTION | BLUETOOTH | WIFI

  /** The status codes `setLight` can return. */
  datatype Status = SUCCESS | LIGHT_NOT_SUPPORTED | BRIGHTNESS_NOT_SUPPORTED | UNKNOWN

  /** `LightState`: only the packed colour matters to this HAL. */
  datatype LightState = LightState(color: uint32)

  /** The registry the constructor builds when `emplaces` nvshieldled
      subdirectories qualified: BACKLIGHT emplaced first, then one emplace of
      BUTTONS per qualifying subdirectory. */
  function Registry(emplaces: nat): map<Type, Callback> {
    if emplaces == 0 then Emplace(map[], BACKLIGHT, BacklightFn)
    else Emplace(Registry(emplaces - 1), BUTTONS, ButtonsFn)
  }

  /** However many subdirectories qualify, the registry is BACKLIGHT alone or
      BACKLIGHT and BUTTONS, each bound to its own callback: every emplace of
      BUTTONS after the first leaves the registry unchanged. */
  lemma {:induction false} RegistryShape(emplaces: nat)
    ensures Registry(emplaces) ==
      if emplaces == 0 then map[BACKLIGHT := BacklightFn]
      else map[BACKLIGHT := BacklightFn, BUTTONS := ButtonsFn]
  {
    if emplaces > 0 {
      RegistryShape(emplaces - 1);
    }
  }

  /** A repeated BUTTONS emplace is a no-op, so the registry holds at most
      two types. */
  lemma {:induction false} RepeatedEmplaceUnchanged(emplaces: nat)
    requires emplaces >= 1
    ensures Registry(emplaces + 1) == Registry(emplaces)
    ensures |Registry(emplaces)| == 2 && |Registry(0)| == 1
  {
    RegistryShape(emplaces);
    RegistryShape(0);
    assert Registry(emplaces).Keys == {BACKLIGHT, BUTTONS};
  }

  class Light {
    var backlight: Handle
    var powerLed: Handle
    var powerLedState: Handle
    var buttonLeds: Handle
    var buttonLedsState: Handle
    /** `mLedBrightness`, taken to be an `int8_t` as in the AIDL header. */
    var ledBrightness: int8
    /** `mLights`. */
    var lights: map<Type, Callback>
    /** Every write made to a node, oldest first. */
    ghost var Log: seq<Write>

    /** The five streams. */
    function Streams(): Handles
      reads this
    {
      Handles(backlight, powerLed, powerLedState, buttonLeds, buttonLedsState)
    }

    /** `Light::Light()`: register BACKLIGHT, probe the hardware, emplace
        BUTTONS for each qualifying nvshieldled subdirectory, and read the
        remembered brightness from the power node when it opened.
        `powerReading` is the value that read yields. */
    constructor (fs: FileSystem, powerReading: int8)
      requires BACKLIGHT_DIR in fs.dirs
      ensures Streams() == Discover(fs).handles
      ensures lights == Registry(Discover(fs).buttons)
      ensures ledBrightness == if powerLed.Some? then powerReading else 0
      ensures Log == []
    {
      backlight, powerLed, powerLedState, buttonLeds, buttonLedsState := None, None, None, None, None;
      ledBrightness := 0;
      lights := map[];
      Log := [];
      new;

      // BACKLIGHT is registered before probing, whether or not a backlight node opens.
      lights := Emplace(lights, BACKLIGHT, BacklightFn);

      ProbeBacklight(fs);

      powerLed := Open(fs, powerLed, ROTHLED_NODE);
      if powerLed.None? {
        powerLed := Open(fs, powerLed, LIGHTBAR_NODE);
        if powerLed.Some? {
          powerLedState := Open(fs, powerLedState, LIGHTBAR_STATE);
        } else if Exists(fs, NVSHIELDLED_DIR) {
          ProbeShieldLeds(fs);
        }
      }

      if powerLed.Some? {
        ledBrightness := powerReading;
      } else {
        ledBrightness := 0;
      }
    }

    /** The constructor's backlight loop: open `brightness` in each entry of
        the backlight directory until one opens. */
    method ProbeBacklight(fs: FileSystem)
      requires BACKLIGHT_DIR in fs.dirs && backlight.None?
      modifies this`backlight
      ensures backlight == FirstOpenable(fs, fs.dirs[BACKLIGHT_DIR], BACKLIGHT_NODE)
    {
      var entries := fs.dirs[BACKLIGHT_DIR];
      var i := 0;
      while i < |entries|
        invariant 0 <= i <= |entries|
        invariant backlight.None? && FirstIndex(fs, entries, BACKLIGHT_NODE) >= i
      {
        backlight := Open(fs, backlight, Join(entries[i], BACKLIGHT_NODE));
        if backlight.Some? {
          break;
        }
        i := i + 1;
      }
    }

    /** The constructor's nvshieldled loop: re-open the four LED streams in
        each subdirectory and, whenever a state stream is open after that,
        emplace BUTTONS. */
    method ProbeShieldLeds(fs: FileSystem)
      requires Exists(fs, NVSHIELDLED_DIR)
      requires lights == Registry(0)
      modifies this`powerLed, this`powerLedState, this`buttonLeds, this`buttonLedsState, this`lights
      ensures var p := ShieldScan(fs, old(Streams()), fs.dirs[NVSHIELDLED_DIR]);
        Streams() == p.handles && lights == Registry(p.buttons)
    {
      var subs := fs.dirs[NVSHIELDLED_DIR];
      ghost var start := Streams();
      var k := 0;
      while k < |subs|
        invariant 0 <= k <= |subs|
        invariant var p := ShieldScan(fs, start, subs[..k]);
          Streams() == p.handles && lights == Registry(p.buttons)
      {
        ShieldScanPrefix(fs, start, subs, k);
        var node := subs[k];
        powerLed := Open(fs, powerLed, Join(node, NVSHIELDLED_POWER_NODE));
        powerLedState := Open(fs, powerLedState, Join(node, NVSHIELDLED_POWER_STATE));
        buttonLeds := Open(fs, buttonLeds, Join(node, NVSHIELDLED_BUTTONS_NODE));
        buttonLedsState := Open(fs, buttonLedsState, Join(node, NVSHIELDLED_BUTTONS_STATE));
        if powerLedState.Some? || buttonLedsState.Some? {
          lights := Emplace(lights, BUTTONS, ButtonsFn);
        }
        k := k + 1;
      }
      assert subs[..k] == subs;
    }

    /** `setLight`: an unregistered type answers LIGHT_NOT_SUPPORTED and
        changes nothing; a registered type runs exactly the callback bound to
        it and answers SUCCESS. */
    method SetLight(lightType: Type, state: LightState) returns (status: Status)
      modifies this`ledBrightness, this`Log
      ensures lightType !in lights ==>
        status == LIGHT_NOT_SUPPORTED && Log == old(Log) && ledBrightness == old(ledBrightness)
      ensures lightType in lights ==>
        var o := Invoke(lights[lightType], Streams(), old(ledBrightness), RgbToBrightness(state.color));
        status == SUCCESS && Log == old(Log) + o.writes && ledBrightness == o.ledBrightness
    {
      if lightType !in lights {
        return LIGHT_NOT_SUPPORTED;
      }
      match lights[lightType] {
        case BacklightFn => SetBacklight(state);
        case ButtonsFn => SetButtonsLight(state);
      }
      return SUCCESS;
    }

    /** `getSupportedTypes`: every registered type exactly once, in whatever
        order the map yields them; nothing changes. */
    method GetSupportedTypes() returns (types: seq<Type>)
      ensures multiset(types) == multiset(lights.Keys)
    {
      types := [];
      var todo := lights.Keys;
      while exists t :: t in todo
        invariant todo <= lights.Keys
        invariant multiset(types) == multiset(lights.Keys - todo)
        decreases todo
      {
        var t :| t in todo;
        assert lights.Keys - (todo - {t}) == (lights.Keys - todo) + {t};
        types := types + [t];
        todo := todo - {t};
      }
      assert lights.Keys - todo == lights.Keys;
    }

    /** `setBacklight`, run under the lock as one step. */
    method SetBacklight(state: LightState)
      modifies this`Log
      ensures Log == old(Log) + BacklightWrites(Streams(), ledBrightness, RgbToBrightness(state.color))
    {
      var brightness := RgbToBrightness(state.color);
      if powerLedState.Some? {
        Log := Log + [Write(PowerLedStateNode, powerLedState.value, Text(if brightness != 0 then "normal" else "breathe"))];
      } else if powerLed.Some? {
        Log := Log + [Write(PowerLedNode, powerLed.value, Num(if brightness != 0 then ledBrightness as int else 0))];
      }
      if backlight.Some? {
        Log := Log + [Write(BacklightNode, backlight.value, Num(brightness))];
      }
    }

    /** `setButtonsLight`, run under the lock as one step. */
    method SetButtonsLight(state: LightState)
      modifies this`ledBrightness, this`Log
      ensures ledBrightness == ToInt8(RgbToBrightness(state.color))
      ensures Log == old(Log) + ButtonsWrites(Streams(), RgbToBrightness(state.color))
    {
      ledBrightness := ToInt8(RgbToBrightness(state.color));
      if buttonLeds.Some? && ledBrightness != 0 {
        Log := Log + [Write(ButtonLedsNode, buttonLeds.value, Char(ledBrightness as int))];
      }
    }
  }

  /** Whatever hardware is found, BACKLIGHT is registered with the backlight
      callback; BUTTONS is registered, with the buttons callback, exactly when
      some nvshieldled subdirectory qualified; nothing else is registered. */
  lemma RegistryAfterProbe(fs: FileSystem)
    requires BACKLIGHT_DIR in fs.dirs
    ensures var r := Registry(Discover(fs).buttons);
      && BACKLIGHT in r && r[BACKLIGHT] == BacklightFn
      && (BUTTONS in r <==> Discover(fs).buttons > 0)
      && (BUTTONS in r ==> r[BUTTONS] == ButtonsFn)
      && (forall t :: t in r ==> t == BACKLIGHT || t == BUTTONS)
      && 1 <= |r| <= 2
  {
    var n := Discover(fs).buttons;
    RegistryShape(n);
    if n > 0 {
      RepeatedEmplaceUnchanged(n);
    } else {
      RepeatedEmplaceUnchanged(1);
    }
  }
}
