# NVIDIA light HAL, modelled in Dafny

This project models `Light`, the NVIDIA light HAL service object. It exists
in two interface generations: the AIDL one (`Light-aidl.cpp`, `Light-aidl.h`)
and the HIDL light 2.0 one (`Light-hidl.cpp`). Both versions do the same
four things.

- **Brightness.** `rgbToBrightness` turns a packed `0xAARRGGBB` colour into a
  luma value `(77 R + 150 G + 29 B) >> 8` and ignores alpha (module `Luma`).
- **Probe.** The constructor opens five member streams by probing sysfs in a
  fixed order:
  - the first `brightness` file under `/sys/class/backlight`;
  - then roth-led;
  - else the lightbar, together with its `effects` node;
  - else every `/sys/class/nvshieldled` subdirectory in turn.

  The probe is written once, as functions of an abstract filesystem view
  (modules `Sysfs` and `Prober`).
- **Registry.** The constructor also builds a registry. AIDL maps
  contiguous integer ids to a descriptor and a callback. HIDL maps light
  types to a callback, so repeated BUTTONS emplaces collapse into one entry.
  It then reads the remembered brightness from the power node.
- **Routing and write rules.** `setLightState`/`setLight` either run the
  bound callback or report an unsupported light. `getLights`/`getSupportedTypes`
  list the registry. The two callbacks, `setBacklight` and `setButtonsLight`,
  decide which node receives which value. The write rules are shared
  (module `Dispatch`).

Each front-end is a `class Light` (modules `AidlLight` and `HidlLight`):
- the five streams are `Option<Path>` fields;
- `mLedBrightness` is a signed byte;
- the registry is a `map` field;
- every write to a node is appended to a ghost log of `(node, file, value)` events.

The constructor's two directory loops are methods with loop invariants. Each
is proved to leave exactly the state that the probe functions compute. Each
callback method is proved to append exactly the writes that the `Dispatch`
functions give. The lemmas then state the rules that the source promises.

Some consequences of the code are worth stating up front:
- **Primaries.** A full red, green or blue channel gives 76, 149 or 28,
  because 255 times the weight is truncated by `>> 8` (`Luma.Primaries`).
- **Listing order.** `getLights` and `getSupportedTypes` walk an
  `unordered_map`, so their results are specified as multisets.
- **Signed byte output.** `mLedBrightness` is an `int8_t`. The button node
  therefore receives it as a single raw character, which is a `Char` value
  in the log. The power node is written through `brightness ? mLedBrightness : 0`,
  whose type is `int`, so it receives a decimal number.

## Model

| member | source | states |
|---|---|---|
| Luma.RgbToBrightness | Light-aidl.cpp:43-47 | the brightness of any 32-bit colour lies in 0..255 |
| Luma.WeightedSum | Light-aidl.cpp:45-46 | the weighted channel sum stays at most 255*256, so the `uint32_t` arithmetic never wraps |
| Luma.AlphaIgnored | Light-aidl.cpp:44 | two colours with equal low 24 bits have equal brightness, whatever their alpha bytes |
| Luma.MaskIgnored | Light-hidl.cpp:40 | a colour's brightness is that of its low 24 bits, the same mask in the HIDL copy of the formula |
| Luma.WhiteAndBlack | Light-aidl.cpp:43-47 | white gives 255 and black gives 0, with or without an alpha byte |
| Luma.Primaries | Light-aidl.cpp:45-46 | pure red, green and blue give 76, 149 and 28 |
| Luma.GreyIsItsLevel | Light-hidl.cpp:39-43 | a grey `0xvvvvvv` has brightness v, for every v in 0..255 |
| Luma.ToInt8 | Light-aidl.h:49 | storing into `int8_t` keeps the value modulo 256: 0..127 unchanged, 128..255 become the value minus 256 |
| Luma.StoredZeroIffZero | Light-aidl.cpp:129-131 | a brightness in 0..255 is zero once stored exactly when it was zero |
| Sysfs.Open | Light-aidl.cpp:61 | `open` then `is_open`: an open stream stays bound to its first file, a closed one opens on an openable file; its consequences for the loops are stated by Prober.FirstOpenableSnoc and Prober.ShieldScanBindsFirst |
| Prober.FirstOpenable | Light-aidl.cpp:60-65 | the `brightness` stream opens exactly when some entry's file is openable, and then on an openable file; the first-match rule is stated by Prober.BacklightBindsFirst |
| Prober.ShieldStep | Light-aidl.cpp:75-78 | one pass of the nvshieldled loop leaves the backlight stream alone and every already open stream bound to its file |
| Prober.Discover | Light-aidl.cpp:60-85 | the whole probe; its contract is stated by Prober.BacklightBindsFirst, Prober.PowerProbeOrder, Prober.ShieldProbe and Prober.ButtonsIffStateNode |
| Prober.FirstIndex | Light-aidl.cpp:60-65 | the index of the first directory whose file opens, none before it opening, or the length when none opens |
| Prober.FirstIndexSnoc | Light-aidl.cpp:60-65 | appending a directory keeps an existing first match and otherwise tries the new one |
| Prober.FirstOpenableSnoc | Light-aidl.cpp:75-78 | re-opening an already bound stream on one more directory leaves the first bound file in place |
| Prober.ShieldScan | Light-aidl.cpp:73-84 | the nvshieldled loop adds at most one BUTTONS light per subdirectory |
| Prober.ShieldScanBindsFirst | Light-aidl.cpp:73-78 | after the nvshieldled loop each LED stream is bound to its file in the first subdirectory where that file opens |
| Prober.ShieldScanCount | Light-aidl.cpp:79-84 | the loop adds a BUTTONS light for every subdirectory from the first that has an openable `state` or `state2` to the end |
| Prober.BacklightBindsFirst | Light-aidl.cpp:60-65 | the backlight stream binds to the first backlight entry whose `brightness` opens, and no later entry is tried |
| Prober.PowerProbeOrder | Light-aidl.cpp:67-72 | roth-led is tried first, the lightbar second (the only branch that opens `effects`), and with neither nor nvshieldled only the backlight stream is open and no BUTTONS light is added |
| Prober.ShieldProbe | Light-aidl.cpp:72-85 | on nvshieldled hardware the four LED streams bind first-match and the BUTTONS count runs from the first qualifying subdirectory |
| Prober.ButtonsIffStateNode | Light-aidl.cpp:79-83 | a BUTTONS light is added exactly when the nvshieldled branch runs and some subdirectory has an openable `state` or `state2` |
| Dispatch.Emplace | Light-aidl.cpp:57 | `emplace`; its contract is stated by Dispatch.EmplaceNeverOverwrites |
| Dispatch.EmplaceNeverOverwrites | Light-aidl.cpp:57 | after an emplace the key is present, no existing binding is overwritten, the new value is bound only to an absent key, and the map grows by one exactly when the key was new |
| Dispatch.PowerWrites | Light-aidl.cpp:117-120 | the power-LED half of `setBacklight`: at most one write, to the file its stream is bound to; its per-node rules are stated by Dispatch.BacklightRules |
| Dispatch.PanelWrites | Light-aidl.cpp:122-123 | the panel half of `setBacklight`: at most one write, to the bound backlight file; its rule is stated by Dispatch.BacklightRules |
| Dispatch.BacklightWrites | Light-aidl.cpp:112-124 | `setBacklight`'s writes, power LED first and panel second; its contract is stated by Dispatch.BacklightRules |
| Dispatch.ButtonsWrites | Light-aidl.cpp:129-132 | `setButtonsLight`'s writes: at most one, to the bound button file; its rules are stated by Dispatch.ButtonsRules |
| Dispatch.Invoke | Light-aidl.cpp:97 | running a registry entry's bound callback; its contract is stated by Dispatch.BacklightRules and Dispatch.ButtonsRules |
| Dispatch.BacklightRules | Light-aidl.cpp:112-124 | an open power state node gets "normal" or "breathe"; only otherwise the power node gets the remembered brightness or 0; never both; an open backlight gets the raw brightness; button nodes untouched; every write goes to its bound file; remembered brightness unchanged |
| Dispatch.ButtonsRules | Light-aidl.cpp:126-133 | the remembered brightness becomes the computed one as a signed byte; the button node gets it only when open and non-zero; no other node is written |
| Dispatch.RememberedBrightnessWraps | Light-aidl.cpp:129 | a buttons brightness of 128..255 is remembered as a negative byte, which a later non-zero backlight request writes to the power node |
| Dispatch.PowerLedUsesRememberedLevel | Light-aidl.cpp:119-120 | without a state node the backlight request only switches the power LED between 0 and the level remembered from the last buttons request |
| AidlLight.Registry | Light-aidl.cpp:52-58 | the registry built from the BUTTONS count (emplaces at lines 57 and 81); its contract is stated by AidlLight.RegistryShape and AidlLight.RegistrySize |
| AidlLight.RegistryShape | Light-aidl.cpp:52-58 | ids are exactly 0..n; id 0 is the backlight entry; each other id is a BUTTONS entry whose descriptor carries that id and ordinal 0 |
| AidlLight.RegistrySize | Light-aidl.cpp:79-83 | every BUTTONS emplace inserts a fresh id, so the registry has one entry more than there are BUTTONS lights |
| AidlLight.DescriptorsOfPick | Light-aidl.cpp:105-107 | the listed descriptors of a registry are the same whichever entry is taken first |
| AidlLight.Light.constructor | Light-aidl.cpp:49-91 | the streams are what the probe finds, the registry is the backlight entry plus one BUTTONS entry per qualifying subdirectory, the remembered brightness is the power node's reading if that node opened and 0 otherwise, and nothing is written |
| AidlLight.Light.ProbeBacklight | Light-aidl.cpp:60-65 | the loop with `break` binds the backlight stream to the first entry whose `brightness` opens |
| AidlLight.Light.ProbeShieldLeds | Light-aidl.cpp:72-85 | the loop leaves the streams of the nvshieldled scan and emplaces a BUTTONS entry at each next id, returning the next free id |
| AidlLight.Light.SetLightState | Light-aidl.cpp:93-102 | an unknown id gives EX_SERVICE_SPECIFIC and changes nothing; a known id runs exactly its callback once and gives ok |
| AidlLight.Light.GetLights | Light-aidl.cpp:104-110 | the result holds each registered descriptor once per id, in any order |
| AidlLight.Light.SetBacklight | Light-aidl.cpp:112-124 | the log grows by exactly the backlight write rules' writes |
| AidlLight.Light.SetButtonsLight | Light-aidl.cpp:126-133 | the remembered brightness becomes the signed byte of the computed one and the log grows by exactly the buttons write rules' writes |
| AidlLight.BacklightAlwaysRegistered | Light-aidl.cpp:54-58 | whatever is probed, id 0 is the backlight descriptor bound to the backlight callback and it is listed |
| AidlLight.RegistryAfterProbe | Light-aidl.cpp:72-84 | after probing the ids are exactly 0..n-1 with n one more than the BUTTONS count, and on roth-led or lightbar hardware only the backlight is registered |
| HidlLight.Registry | Light-hidl.cpp:58-80 | the registry built from the number of BUTTONS emplaces; its contract is stated by HidlLight.RegistryShape and HidlLight.RepeatedEmplaceUnchanged |
| HidlLight.RegistryShape | Light-hidl.cpp:58-80 | however many BUTTONS emplaces happen, the registry is BACKLIGHT alone or BACKLIGHT and BUTTONS, each bound to its own callback |
| HidlLight.RepeatedEmplaceUnchanged | Light-hidl.cpp:79-80 | a repeated BUTTONS emplace leaves the registry unchanged, so it holds at most two types |
| HidlLight.Light.constructor | Light-hidl.cpp:52-88 | the streams are what the probe finds, the registry is BACKLIGHT plus one BUTTONS emplace per qualifying subdirectory, the remembered brightness is the power node's reading or 0, and nothing is written |
| HidlLight.Light.ProbeBacklight | Light-hidl.cpp:60-65 | the loop binds the backlight stream to the first entry whose `brightness` opens |
| HidlLight.Light.ProbeShieldLeds | Light-hidl.cpp:72-82 | the loop leaves the streams of the nvshieldled scan and emplaces BUTTONS once per qualifying subdirectory |
| HidlLight.Light.SetLight | Light-hidl.cpp:91-101 | an unregistered type gives LIGHT_NOT_SUPPORTED and changes nothing; a registered type runs exactly its callback once and gives SUCCESS |
| HidlLight.Light.GetSupportedTypes | Light-hidl.cpp:103-113 | the result holds exactly the registered types, each once, and no state changes |
| HidlLight.Light.SetBacklight | Light-hidl.cpp:115-127 | the log grows by exactly the backlight write rules' writes |
| HidlLight.Light.SetButtonsLight | Light-hidl.cpp:129-136 | the remembered brightness becomes the signed byte of the computed one and the log grows by exactly the buttons write rules' writes |
| HidlLight.RegistryAfterProbe | Light-hidl.cpp:56-82 | BACKLIGHT is always registered with the backlight callback, BUTTONS exactly when some subdirectory qualified, nothing else, so the registry has one or two entries |

## Left out

- The mutex `mLock` and concurrent callers. Each callback is one atomic method step, which is what the lock provides.
- `service-aidl.cpp`, which registers the binder service and runs the thread pool: it is not part of this model.
- Logging (`ALOGI`).
- `Light-hidl.h` is not part of this model. The HIDL `mLedBrightness` is taken to be an `int8_t`, as in the AIDL header.
- The generated `Type`, `LightType`, `HwLight`, `HwLightState` and `LightState` types are small enumerations and records. Only the colour of a light state is kept; the flash and brightness-mode fields are never read.
- Real filesystem behaviour:
  - the view is a set of openable files plus a listing per existing directory;
  - directory iteration order is taken as given;
  - the separate modes of `ofstream` and `fstream` opening are not distinguished;
  - a regular file at the nvshieldled path is not modelled.
- AidlLight.Light.constructor and HidlLight.Light.constructor: a missing `/sys/class/backlight` makes the directory iterator throw during start-up. This is a precondition, not a modelled failure.
- AidlLight.Light.constructor and HidlLight.Light.constructor: the start-up `mPowerLed >> mLedBrightness` is the parameter `powerReading`. Because the target is a signed char, it is the code of the first non-blank character of the node. How `>>` parses it is not modelled.
- Stream state after an `open` of an already open stream (the failbit), `std::endl` and flushing. A write is one event carrying the value written. With two or more nvshieldled subdirectories, every stream bound in an earlier pass is re-opened and gets its failbit; the real start-up `>>` and every later `<<` on such a stream then do nothing, while the model still records those writes and uses `powerReading`.
- `unordered_map` iteration order. AidlLight.Light.GetLights and HidlLight.Light.GetSupportedTypes state their results as multisets, not sequences.
- The `int32_t` light id cannot overflow: it is bounded by the number of nvshieldled subdirectories plus one, so ids are unbounded integers.
