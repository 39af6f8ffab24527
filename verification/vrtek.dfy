/**
 * VR-Tek WVR headset identification (src/drv_vrtek/vrtek.c): the model
 * response names the SKU in its first twelve characters, the configuration
 * response carries the display type in byte 1 and a big-endian software
 * version in bytes 20..23.  The results are stored in the driver's private
 * state.
 */
module VrTek {
  import opened Bytes

  const MODEL_STRING_LENGTH: nat := 12
  const MIN_CONFIG_RESPONSE: nat := 24
  const VERSION_AT: nat := 20

  datatype Sku = WvrUnknown | Wvr1 | Wvr2 | Wvr3 | UnknownUnknown

  /** `vrtek_display_type`: the two known panels and 0xFF. */
  const DISP_LCD2880X1440: nat := 4
  const DISP_LCD1440X2560_ROTATED: nat := 5
  const DISP_UNKNOWN: nat := 0xFF

  /** `"WVR"` */
  const WVR: seq<Byte> := [0x57, 0x56, 0x52]

  /** The SKU a model response names, when it is long enough to name one. */
  function SkuOf(model: seq<Byte>): (r: Sku)
    requires |model| >= MODEL_STRING_LENGTH
  {
    if model[..3] != WVR then UnknownUnknown
    else if model[3] == '1' as int then Wvr1
    else if model[3] == '2' as int then Wvr2
    else if model[3] == '3' as int then Wvr3
    else WvrUnknown
  }

  /** Each known SKU is named by exactly "WVR" and its digit; any other fourth character is an unknown WVR. */
  lemma SkuNames(model: seq<Byte>)
    requires |model| >= MODEL_STRING_LENGTH
    ensures SkuOf(model) == Wvr1 <==> model[..4] == WVR + ['1' as int]
    ensures SkuOf(model) == Wvr2 <==> model[..4] == WVR + ['2' as int]
    ensures SkuOf(model) == Wvr3 <==> model[..4] == WVR + ['3' as int]
    ensures SkuOf(model) == WvrUnknown <==>
      model[..3] == WVR && model[3] !in {'1' as int, '2' as int, '3' as int}
    ensures SkuOf(model) == UnknownUnknown <==> model[..3] != WVR
  {
    assert model[..3] == model[..4][..3];
    if model[..3] == WVR {
      assert model[..4] == WVR + [model[3]];
    }
  }

  /** Display type, horizontal and vertical resolution for a display type byte. */
  datatype Display = Display(displayType: nat, hres: nat, vres: nat)

  /** The driver's private state that identification fills in. */
  class Priv {
    var sku: Sku
    var modelStr: seq<Byte>
    var softwareVersion: nat
    var display: Display

    /** `ohmd_alloc` zero-fills the private state; the zero SKU is `VRTEK_SKU_WVR_UNKNOWN`. */
    constructor ()
      ensures sku == WvrUnknown && modelStr == Zeros(MODEL_STRING_LENGTH + 1)
      ensures softwareVersion == 0 && display == Display(0, 0, 0)
    {
      sku := WvrUnknown;
      modelStr := Zeros(MODEL_STRING_LENGTH + 1);
      softwareVersion := 0;
      display := Display(0, 0, 0);
    }

    /**
     * `vrtek_update_hmd_model(priv, model, length)`: a response shorter than
     * twelve characters only marks the SKU unknown; otherwise the first
     * twelve characters, terminated, become the model string and name the SKU.
     */
    method UpdateHmdModel(model: seq<Byte>, length: nat)
      requires length <= |model|
      modifies this
      ensures length < MODEL_STRING_LENGTH ==> sku == UnknownUnknown && modelStr == old(modelStr)
      ensures length >= MODEL_STRING_LENGTH ==>
        sku == SkuOf(model) && modelStr == model[..MODEL_STRING_LENGTH] + [0]
      ensures softwareVersion == old(softwareVersion) && display == old(display)
    {
      if length < MODEL_STRING_LENGTH {
        sku := UnknownUnknown;
        return;
      }
      modelStr := model[..MODEL_STRING_LENGTH] + [0];
      if model[..3] == WVR {
        var c := model[3];
        if c == '1' as int {
          sku := Wvr1;
        } else if c == '2' as int {
          sku := Wvr2;
        } else if c == '3' as int {
          sku := Wvr3;
        } else {
          sku := WvrUnknown;
        }
      } else {
        sku := UnknownUnknown;
      }
    }

    /** `vrtek_update_hmd_software_version`: bytes 20..23, big-endian, and only from a response of 24 bytes or more. */
    method UpdateSoftwareVersion(response: seq<Byte>, size: nat)
      requires size <= |response|
      modifies this
      ensures size < MIN_CONFIG_RESPONSE ==> softwareVersion == old(softwareVersion)
      ensures size >= MIN_CONFIG_RESPONSE ==> softwareVersion == U32Be(response, VERSION_AT)
      ensures sku == old(sku) && modelStr == old(modelStr) && display == old(display)
    {
      if size < MIN_CONFIG_RESPONSE {
        return;
      }
      var b0: nat, b1: nat, b2: nat, b3: nat :=
        response[VERSION_AT], response[VERSION_AT + 1], response[VERSION_AT + 2], response[VERSION_AT + 3];
      softwareVersion := b0 * TWO_24 + b1 * TWO_16 + b2 * TWO_8 + b3;
    }

    /**
     * `vrtek_update_display_properties`: type 4 is two 1440x1440 panels
     * (2880x1440), type 5 one rotated 1440x2560 panel (2560x1440); any other
     * byte marks the display unknown and leaves the resolution as it was.
     */
    method UpdateDisplayProperties(displayType: Byte)
      modifies this
      ensures display == DisplayFor(displayType, old(display))
      ensures sku == old(sku) && modelStr == old(modelStr) && softwareVersion == old(softwareVersion)
    {
      if displayType == 4 {
        display := Display(DISP_LCD2880X1440, 2880, 1440);
      } else if displayType == 5 {
        display := Display(DISP_LCD1440X2560_ROTATED, 2560, 1440);
      } else {
        display := Display(DISP_UNKNOWN, display.hres, display.vres);
      }
    }
  }

  /** The display after a configuration response announcing `t`. */
  function DisplayFor(t: Byte, before: Display): (d: Display)
  {
    if t == 4 then Display(DISP_LCD2880X1440, 2880, 1440)
    else if t == 5 then Display(DISP_LCD1440X2560_ROTATED, 2560, 1440)
    else Display(DISP_UNKNOWN, before.hres, before.vres)
  }

  /** The stored type is the announced one when known, so it always names its own resolution. */
  lemma DisplayKnown(t: Byte, before: Display)
    ensures var d := DisplayFor(t, before);
      (d.displayType == DISP_UNKNOWN <==> t != 4 && t != 5) &&
      (d.displayType != DISP_UNKNOWN ==> d.displayType == t) &&
      (d.displayType == DISP_LCD2880X1440 ==> d.hres == 2 * d.vres) &&
      (d.displayType == DISP_LCD1440X2560_ROTATED ==> d.hres == 2560 && d.vres == 1440) &&
      DisplayFor(d.displayType, before) == d
  {
  }

  /** The version a headset reports in a configuration response is the one read back. */
  lemma SoftwareVersionRoundTrip(prefix: seq<Byte>, v: nat, rest: seq<Byte>)
    requires |prefix| == VERSION_AT && v < TWO_32
    ensures U32Be(prefix + Be32(v) + rest, VERSION_AT) == v
  {
    var r := prefix + Be32(v) + rest;
    assert U32Be(r, VERSION_AT) == U32Be(Be32(v), 0) by {
      assert r[VERSION_AT..VERSION_AT + 4] == Be32(v);
    }
  }
}
