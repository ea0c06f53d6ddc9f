/** The two behaviours a registry entry can be bound to, `setBacklight` and
    `setButtonsLight`, as the writes and the remembered brightness they
    produce. Both front-ends bind the same two behaviours. */
module Dispatch {
  import opened Sysfs
  import opened Luma
  import opened Prober

  /** The bound callback of a registry entry. */
  datatype Callback = BacklightFn | ButtonsFn

  /** `unordered_map::emplace`: inserts only when the key is absent. */
  function Emplace<K, V>(m: map<K, V>, k: K, v: V): map<K, V> {
    if k in m then m else m[k := v]
  }

  /** After an emplace the key is present, no existing binding has been
      overwritten, and the new value is bound only to a key that was absent,
      so the map grows by one exactly when the key was new. */
  lemma EmplaceNeverOverwrites<K, V>(m: map<K, V>, k: K, v: V)
    ensures var r := Emplace(m, k, v);
      && r.Keys == m.Keys + {k}
      && (forall j :: j in m ==> r[j] == m[j])
      && (k !in m ==> r[k] == v)
      && |r| == if k in m then |m| else |m| + 1
  {
  }

  /** The writes and the remembered brightness one callback leaves behind. */
  datatype Outcome = Outcome(writes: seq<Write>, ledBrightness: int8)

  /** The power-LED half of `setBacklight`: the effect word to the power
      state node when that is open, else the remembered brightness (or 0 for
      a zero request) to the power node when that is open. */
  function PowerWrites(h: Handles, ledBrightness: int8, brightness: int): (w: seq<Write>)
    ensures |w| <= 1 && WritesBound(h, w)
  {
    if h.powerLedState.Some? then
      [Write(PowerLedStateNode, h.powerLedState.value, Text(if brightness != 0 then "normal" else "breathe"))]
    else if h.powerLed.Some? then
      [Write(PowerLedNode, h.powerLed.value, Num(if brightness != 0 then ledBrightness as int else 0))]
    else []
  }

  /** The panel half of `setBacklight`: the raw brightness to the backlight
      node when that is open. */
  function PanelWrites(h: Handles, brightness: int): (w: seq<Write>)
    ensures |w| <= 1 && WritesBound(h, w)
  {
    if h.backlight.Some? then [Write(BacklightNode, h.backlight.value, Num(brightness))] else []
  }

  /** `setBacklight`: the power LED first, then the panel. */
  function BacklightWrites(h: Handles, ledBrightness: int8, brightness: int): seq<Write> {
    PowerWrites(h, ledBrightness, brightness) + PanelWrites(h, brightness)
  }

  /** `setButtonsLight`: the button node, if open, gets the stored brightness
      unless that is zero. The stored value is an `int8_t`, so it goes out as
      one character. */
  function ButtonsWrites(h: Handles, brightness: int): (w: seq<Write>)
    ensures |w| <= 1 && WritesBound(h, w)
  {
    var stored := ToInt8(brightness);
    if h.buttonLeds.Some? && stored != 0 then [Write(ButtonLedsNode, h.buttonLeds.value, Char(stored as int))] else []
  }

  /** What invoking `callback` does for a request of the given brightness. */
  function Invoke(callback: Callback, h: Handles, ledBrightness: int8, brightness: int): Outcome {
    match callback
    case BacklightFn => Outcome(BacklightWrites(h, ledBrightness, brightness), ledBrightness)
    case ButtonsFn => Outcome(ButtonsWrites(h, brightness), ToInt8(brightness))
  }

  /** Every write goes to a stream that is open, on the file it is bound to. */
  predicate WritesBound(h: Handles, writes: seq<Write>) {
    forall i :: 0 <= i < |writes| ==> Bound(h, writes[i])
  }

  predicate Bound(h: Handles, w: Write) {
    match w.node
    case BacklightNode => h.backlight == Some(w.path)
    case PowerLedNode => h.powerLed == Some(w.path)
    case PowerLedStateNode => h.powerLedState == Some(w.path)
    case ButtonLedsNode => h.buttonLeds == Some(w.path)
    case ButtonLedsStateNode => h.buttonLedsState == Some(w.path)
  }

  /** Appending bound writes to bound writes keeps every write bound. */
  lemma WritesBoundAppend(h: Handles, a: seq<Write>, b: seq<Write>)
    requires WritesBound(h, a) && WritesBound(h, b)
    ensures WritesBound(h, a + b)
  {
    forall i | 0 <= i < |a + b|
      ensures Bound(h, (a + b)[i])
    {
      if i < |a| {
        assert (a + b)[i] == a[i];
      } else {
        assert (a + b)[i] == b[i - |a|];
      }
    }
  }

  /** The write rules of `setBacklight`, node by node: the effect word goes to
      an open power state node; only when that node is closed does an open
      power node get the remembered brightness (or 0 for a zero request), so
      the two never both receive a write; an open backlight node always gets
      the raw brightness; the button nodes are never written and the
      remembered brightness does not change. */
  lemma BacklightRules(h: Handles, ledBrightness: int8, b: int)
    ensures var o := Invoke(BacklightFn, h, ledBrightness, b);
      && WritesTo(o.writes, PowerLedStateNode) ==
           (if h.powerLedState.Some? then [Text(if b != 0 then "normal" else "breathe")] else [])
      && WritesTo(o.writes, PowerLedNode) ==
           (if h.powerLedState.None? && h.powerLed.Some? then [Num(if b != 0 then ledBrightness as int else 0)] else [])
      && (WritesTo(o.writes, PowerLedStateNode) == [] || WritesTo(o.writes, PowerLedNode) == [])
      && WritesTo(o.writes, BacklightNode) == (if h.backlight.Some? then [Num(b)] else [])
      && WritesTo(o.writes, ButtonLedsNode) == []
      && WritesTo(o.writes, ButtonLedsStateNode) == []
      && WritesBound(h, o.writes)
      && o.ledBrightness == ledBrightness
  {
    var power, panel := PowerWrites(h, ledBrightness, b), PanelWrites(h, b);
    PowerHalf(h, ledBrightness, b);
    PanelHalf(h, b);
    WritesToAppend(power, panel, PowerLedStateNode);
    WritesToAppend(power, panel, PowerLedNode);
    WritesToAppend(power, panel, BacklightNode);
    WritesToAppend(power, panel, ButtonLedsNode);
    WritesToAppend(power, panel, ButtonLedsStateNode);
    WritesBoundAppend(h, power, panel);
  }

  /** The power-LED half writes the effect word to an open power state node,
      or else the gated remembered brightness to an open power node, and
      nothing to the other nodes. */
  lemma PowerHalf(h: Handles, ledBrightness: int8, b: int)
    ensures var w := PowerWrites(h, ledBrightness, b);
      && WritesTo(w, PowerLedStateNode) ==
           (if h.powerLedState.Some? then [Text(if b != 0 then "normal" else "breathe")] else [])
      && WritesTo(w, PowerLedNode) ==
           (if h.powerLedState.None? && h.powerLed.Some? then [Num(if b != 0 then ledBrightness as int else 0)] else [])
      && WritesTo(w, BacklightNode) == []
      && WritesTo(w, ButtonLedsNode) == []
      && WritesTo(w, ButtonLedsStateNode) == []
      && WritesBound(h, w)
  {
    WritesToSingle(PowerWrites(h, ledBrightness, b));
  }

  /** The panel half writes the raw brightness to an open backlight node and
      nothing to the other nodes. */
  lemma PanelHalf(h: Handles, b: int)
    ensures var w := PanelWrites(h, b);
      && WritesTo(w, BacklightNode) == (if h.backlight.Some? then [Num(b)] else [])
      && WritesTo(w, PowerLedStateNode) == []
      && WritesTo(w, PowerLedNode) == []
      && WritesTo(w, ButtonLedsNode) == []
      && WritesTo(w, ButtonLedsStateNode) == []
      && WritesBound(h, w)
  {
    WritesToSingle(PanelWrites(h, b));
  }

  /** The write rules of `setButtonsLight`: the remembered brightness becomes
      the computed brightness as a signed byte; the button node gets it only
      when that node is open and the brightness is non-zero, so a zero never
      clears it; no other node is written. */
  lemma ButtonsRules(h: Handles, ledBrightness: int8, b: int)
    requires 0 <= b <= 255
    ensures var o := Invoke(ButtonsFn, h, ledBrightness, b);
      && o.ledBrightness == ToInt8(b)
      && WritesTo(o.writes, ButtonLedsNode) ==
           (if h.buttonLeds.Some? && b != 0 then [Char(ToInt8(b) as int)] else [])
      && WritesTo(o.writes, BacklightNode) == []
      && WritesTo(o.writes, PowerLedNode) == []
      && WritesTo(o.writes, PowerLedStateNode) == []
      && WritesTo(o.writes, ButtonLedsStateNode) == []
      && WritesBound(h, o.writes)
  {
    StoredZeroIffZero(b);
  }

  /** The remembered brightness is a signed byte: a buttons request of
      brightness 128..255 is remembered as that value minus 256, and a later
      non-zero backlight request writes that negative number to the power
      node. */
  lemma RememberedBrightnessWraps(h: Handles, led: int8, buttons: int, backlight: int)
    requires 128 <= buttons <= 255
    requires h.powerLedState.None? && h.powerLed.Some? && backlight != 0
    ensures var stored := Invoke(ButtonsFn, h, led, buttons).ledBrightness;
      && stored as int == buttons - 256 < 0
      && WritesTo(Invoke(BacklightFn, h, stored, backlight).writes, PowerLedNode) == [Num(stored as int)]
  {
    BacklightRules(h, Invoke(ButtonsFn, h, led, buttons).ledBrightness, backlight);
  }

  /** On a power LED without a state node, the backlight request only gates
      the power LED on and off: after a buttons request of brightness 5 (grey
      `0x050505`), a backlight request of brightness 0 writes 0 and one of
      brightness 9 (grey `0x090909`) writes 5, not 9. */
  lemma PowerLedUsesRememberedLevel(h: Handles, led: int8)
    requires h.powerLedState.None? && h.powerLed.Some?
    ensures var stored := Invoke(ButtonsFn, h, led, 5).ledBrightness;
      && stored == 5
      && WritesTo(Invoke(BacklightFn, h, stored, 0).writes, PowerLedNode) == [Num(0)]
      && WritesTo(Invoke(BacklightFn, h, stored, 9).writes, PowerLedNode) == [Num(5)]
  {
    BacklightRules(h, 5, 0);
    BacklightRules(h, 5, 9);
  }
}
