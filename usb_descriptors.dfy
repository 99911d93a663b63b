/** The USB descriptors the device answers with (usb_descriptors.c): the string descriptors,
    built on request into one static buffer of 32 UTF-16 units, and the full-speed
    configuration descriptor, whose entries are chained by their leading length bytes.
    Descriptor type codes and class codes are those of sections 9.4 and 9.6 of USB 2.0 and of
    the USB CDC 1.2 class specification; the TinyUSB headers that name them are not part of
    this model. */
module UsbDescriptors {
  import opened Wrappers

  /** A byte of a descriptor table. */
  type Byte = x: int | 0 <= x < 0x100
  /** A `uint16_t`: one UTF-16 unit of a string descriptor. */
  type U16 = x: int | 0 <= x < 0x1_0000

  // ---------------------------------------------------------------------------------
  // String descriptors
  // ---------------------------------------------------------------------------------

  /** bDescriptorType of a string descriptor (USB 2.0 table 9-5). */
  const TUSB_DESC_STRING: nat := 3
  /** Units in `_desc_str`. */
  const DESC_STR_UNITS: nat := 32
  /** The cap on characters: the buffer holds the header and 31 characters. */
  const MAX_CHARS: nat := 31
  /** Entry 0 of `string_desc_arr`: the two bytes of language ID 0x0409 (English, US). */
  const LANGUAGE_BYTES: seq<Byte> := [0x09, 0x04]

  /** The unit `memcpy` leaves when it copies those two bytes into a little-endian `uint16_t`. */
  const LANGUAGE_ID: U16 := LANGUAGE_BYTES[0] as int + 0x100 * LANGUAGE_BYTES[1] as int

  /** Entries 1 to 4 of `string_desc_arr`: manufacturer, product, serial, CDC interface. */
  const STRINGS: seq<string> := ["PicoFlasher", "PicoFlasher Device", "123456", "PicoFlasher CDC"]

  /** `sizeof(string_desc_arr) / sizeof(string_desc_arr[0])`. */
  const STRING_COUNT: nat := 1 + |STRINGS|

  /** A C string holds bytes: every character fits in eight bits. */
  predicate Narrow(s: string) {
    forall k :: 0 <= k < |s| ==> s[k] as int < 0x100
  }

  /** `chr_count = strlen(str)` into a `uint8_t`, then capped at 31. */
  function ChrCount(len: nat): (c: nat)
    ensures c <= MAX_CHARS
    ensures len <= MAX_CHARS ==> c == len
    ensures MAX_CHARS <= len < 0x100 ==> c == MAX_CHARS
  {
    var c := len % 0x100;
    if c > MAX_CHARS then MAX_CHARS else c
  }

  /** The descriptor header `(TUSB_DESC_STRING << 8) | (2 * chr_count + 2)`: type in the high
      byte, bLength (bytes, header included) in the low one. The low field stays below 0x100,
      so the OR is a sum. */
  function Header(chrCount: nat): (h: U16)
    requires chrCount <= MAX_CHARS
  {
    TUSB_DESC_STRING * 0x100 + (2 * chrCount + 2)
  }

  /** Each character zero-extended into one UTF-16 unit. */
  function Units(s: string): (us: seq<U16>)
    requires Narrow(s)
    ensures |us| == |s|
    ensures forall k :: 0 <= k < |s| ==> us[k] == s[k] as int
  {
    seq(|s|, (k: int) requires 0 <= k < |s| => s[k] as int)
  }

  /** The units `tud_descriptor_string_cb(index)` leaves at the front of `_desc_str`, or None
      when it returns NULL. Units after them are whatever an earlier request left. */
  function Descriptor(index: nat): (d: Option<seq<U16>>) {
    if index == 0 then Some([Header(1), LANGUAGE_ID])
    else if index >= STRING_COUNT then None
    else
      var s := STRINGS[index - 1];
      var c := ChrCount(|s|);
      StringsNarrow();
      Some([Header(c)] + Units(s[..c]))
  }

  /** Every entry of the table is a byte string. */
  lemma StringsNarrow()
    ensures forall k :: 0 <= k < |STRINGS| ==> Narrow(STRINGS[k])
  {
    forall k | 0 <= k < |STRINGS|
      ensures Narrow(STRINGS[k])
    {
      assert STRINGS[k] in STRINGS;
    }
  }

  /** Index 0 answers with a 4-byte descriptor holding language ID 0x0409. */
  lemma LanguageDescriptor()
    ensures Descriptor(0) == Some([0x0304, 0x0409])
  {
    StringsNarrow();
  }

  /** Every descriptor fits `_desc_str`; its header carries the string type and a bLength
      equal to its size in bytes, header included (section 9.6.7 of USB 2.0). */
  lemma HeaderCountsItself(index: nat)
    ensures var d := Descriptor(index);
      d.Some? ==> (&& 2 <= |d.value| <= DESC_STR_UNITS
                   && d.value[0] / 0x100 == TUSB_DESC_STRING
                   && d.value[0] % 0x100 == 2 * |d.value|)
  {
    StringsNarrow();
  }

  /** Indices 1 to 4 give back their string, cut to 31 characters: the units after the header,
      read as characters, are the string's first `min(strlen, 31)` characters. */
  lemma DescriptorText(index: nat)
    requires 1 <= index < STRING_COUNT
    ensures var d := Descriptor(index); var s := STRINGS[index - 1];
      && d.Some?
      && |d.value| == 1 + (if |s| <= MAX_CHARS then |s| else MAX_CHARS)
      && forall k :: 1 <= k < |d.value| ==> d.value[k] == s[k - 1] as int
  {
    StringsNarrow();
  }

  /** An index past the table answers NULL. */
  lemma UnknownIndex(index: nat)
    requires index >= STRING_COUNT
    ensures Descriptor(index) == None
  {
    StringsNarrow();
  }

  /** The static `_desc_str` and the callback that fills it. */
  class StringBuffer {
    const units: array<U16>

    constructor()
      ensures fresh(units) && units.Length == DESC_STR_UNITS
    {
      units := new U16[DESC_STR_UNITS](_ => 0);
    }

    /** `tud_descriptor_string_cb(index, langid)`; `langid` is ignored. `found` is false where
        the callback returns NULL, and then the buffer is untouched. */
    method StringCb(index: nat) returns (found: bool)
      requires index < 0x100 && units.Length == DESC_STR_UNITS
      modifies units
      ensures var d := Descriptor(index);
        && found == d.Some?
        && (found ==> units[..|d.value|] == d.value && units[|d.value|..] == old(units[|d.value|..]))
        && (!found ==> units[..] == old(units[..]))
    {
      StringsNarrow();
      var chrCount: nat;
      if index == 0 {
        units[1] := LANGUAGE_ID;
        chrCount := 1;
      } else {
        if !(index < STRING_COUNT) {
          return false;
        }
        var s := STRINGS[index - 1];
        chrCount := ChrCount(|s|);
        CopyUnits(s, chrCount);
      }
      units[0] := Header(chrCount);
      found := true;
      assert units[..1 + chrCount] == [units[0]] + units[1..1 + chrCount];
    }

    /** The conversion loop: the first `c` characters of `s`, zero-extended, into units 1..c. */
    method CopyUnits(s: string, c: nat)
      requires Narrow(s) && c <= |s| && 1 + c <= units.Length
      modifies units
      ensures units[1..1 + c] == Units(s[..c])
      ensures units[0] == old(units[0]) && units[1 + c..] == old(units[1 + c..])
    {
      for i := 0 to c
        invariant forall k :: 0 <= k < i ==> units[1 + k] == s[k] as int
        invariant units[0] == old(units[0])
        invariant forall k :: 1 + i <= k < units.Length ==> units[k] == old(units[k])
      {
        units[1 + i] := s[i] as int;
      }
    }
  }

  // ---------------------------------------------------------------------------------
  // The configuration descriptor
  // ---------------------------------------------------------------------------------

  const TUSB_DESC_CONFIGURATION: Byte := 0x02
  const TUSB_DESC_INTERFACE: Byte := 0x04
  const TUSB_DESC_ENDPOINT: Byte := 0x05
  const TUSB_DESC_INTERFACE_ASSOCIATION: Byte := 0x0B
  const TUSB_DESC_CS_INTERFACE: Byte := 0x24
  const TUSB_CLASS_CDC: Byte := 0x02
  const TUSB_CLASS_CDC_DATA: Byte := 0x0A
  const CDC_COMM_SUBCLASS_ABSTRACT_CONTROL_MODEL: Byte := 0x02
  const CDC_COMM_PROTOCOL_NONE: Byte := 0x00
  const CDC_FUNC_DESC_HEADER: Byte := 0x00
  const CDC_FUNC_DESC_CALL_MANAGEMENT: Byte := 0x01
  const CDC_FUNC_DESC_ABSTRACT_CONTROL_MANAGEMENT: Byte := 0x02
  const CDC_FUNC_DESC_UNION: Byte := 0x06
  const TUSB_XFER_INTERRUPT: Byte := 0x03
  const TUSB_XFER_BULK: Byte := 0x02
  const ITF_NUM_CDC: Byte := 0
  const ITF_NUM_CDC_DATA: Byte := 1
  const ITF_NUM_TOTAL: Byte := 2
  const EPNUM_CDC_NOTIF: Byte := 0x81
  const EPNUM_CDC_OUT: Byte := 0x02
  const EPNUM_CDC_IN: Byte := 0x82

  /** The length of a configuration descriptor header (USB 2.0 table 9-10). */
  const TUD_CONFIG_DESC_LEN: nat := 9
  /** The length of the CDC block `TUD_CDC_DESCRIPTOR` lays out: IAD 8, control interface 9,
      header 5, call management 5, ACM 4, union 5, notification endpoint 7, data interface 9,
      two bulk endpoints 7 each. */
  const TUD_CDC_DESC_LEN: nat := 8 + 9 + 5 + 5 + 4 + 5 + 7 + 9 + 7 + 7
  const CONFIG_TOTAL_LEN: nat := TUD_CONFIG_DESC_LEN + TUD_CDC_DESC_LEN

  /** `U16_TO_U8S_LE(v)`. */
  function U16Le(v: nat): (s: seq<Byte>)
    requires v < 0x1_0000
    ensures |s| == 2 && s[0] as int + 0x100 * s[1] as int == v
  {
    [v % 0x100, v / 0x100]
  }

  /** `TUD_CONFIG_DESCRIPTOR(1, ITF_NUM_TOTAL, 0, CONFIG_TOTAL_LEN, remote wakeup, 100)`:
      bmAttributes is bit 7 with the remote-wakeup bit 5, bMaxPower is in 2 mA units. */
  const CONFIG_HEADER: seq<Byte> :=
    [9, TUSB_DESC_CONFIGURATION] + U16Le(CONFIG_TOTAL_LEN) + [ITF_NUM_TOTAL, 1, 0, 0x80 + 0x20, 100 / 2]

  /** The entries of `desc_fs_configuration`, in order. */
  const CONFIG_ENTRIES: seq<seq<Byte>> := [
    CONFIG_HEADER,
    [8, TUSB_DESC_INTERFACE_ASSOCIATION, ITF_NUM_CDC, 2, TUSB_CLASS_CDC,
     CDC_COMM_SUBCLASS_ABSTRACT_CONTROL_MODEL, CDC_COMM_PROTOCOL_NONE, 0],
    [9, TUSB_DESC_INTERFACE, ITF_NUM_CDC, 0, 1, TUSB_CLASS_CDC,
     CDC_COMM_SUBCLASS_ABSTRACT_CONTROL_MODEL, CDC_COMM_PROTOCOL_NONE, 4],
    [5, TUSB_DESC_CS_INTERFACE, CDC_FUNC_DESC_HEADER] + U16Le(0x0120),
    [5, TUSB_DESC_CS_INTERFACE, CDC_FUNC_DESC_CALL_MANAGEMENT, 0, ITF_NUM_CDC_DATA],
    [4, TUSB_DESC_CS_INTERFACE, CDC_FUNC_DESC_ABSTRACT_CONTROL_MANAGEMENT, 2],
    [5, TUSB_DESC_CS_INTERFACE, CDC_FUNC_DESC_UNION, ITF_NUM_CDC, ITF_NUM_CDC_DATA],
    [7, TUSB_DESC_ENDPOINT, EPNUM_CDC_NOTIF, TUSB_XFER_INTERRUPT] + U16Le(8) + [16],
    [9, TUSB_DESC_INTERFACE, ITF_NUM_CDC_DATA, 0, 2, TUSB_CLASS_CDC_DATA, 0, 0, 0],
    [7, TUSB_DESC_ENDPOINT, EPNUM_CDC_OUT, TUSB_XFER_BULK] + U16Le(64) + [0],
    [7, TUSB_DESC_ENDPOINT, EPNUM_CDC_IN, TUSB_XFER_BULK] + U16Le(64) + [0]
  ]

  /** Entries laid out one after another. */
  function Flatten(es: seq<seq<Byte>>): (s: seq<Byte>)
    decreases |es|
  {
    if es == [] then [] else es[0] + Flatten(es[1..])
  }

  /** `desc_fs_configuration`. */
  function Configuration(): (s: seq<Byte>) {
    Flatten(CONFIG_ENTRIES)
  }

  /** How a host walks a descriptor block: each entry is as long as its first byte says;
      None when a length is below 2 or runs past the end. */
  function Split(s: seq<Byte>): (r: Option<seq<seq<Byte>>>)
    decreases |s|
  {
    if s == [] then Some([])
    else if s[0] < 2 || s[0] > |s| then None
    else
      match Split(s[s[0]..])
      case None => None
      case Some(rest) => Some([s[..s[0]]] + rest)
  }

  /** Whether each entry's first byte is its own length, at least 2. */
  predicate SelfSized(es: seq<seq<Byte>>) {
    forall k :: 0 <= k < |es| ==> 2 <= |es[k]| && es[k][0] == |es[k]|
  }

  /** Walking self-sized entries laid out together gives back exactly those entries. */
  lemma {:induction false} SplitFlatten(es: seq<seq<Byte>>)
    requires SelfSized(es)
    ensures Split(Flatten(es)) == Some(es)
    decreases |es|
  {
    if es != [] {
      var s := Flatten(es);
      assert s == es[0] + Flatten(es[1..]);
      assert s[0] == es[0][0];
      assert s[..s[0]] == es[0];
      assert s[s[0]..] == Flatten(es[1..]);
      assert SelfSized(es[1..]) by {
        forall k | 0 <= k < |es[1..]|
          ensures 2 <= |es[1..][k]| && es[1..][k][0] == |es[1..][k]|
        {
          assert es[1..][k] == es[k + 1];
        }
      }
      SplitFlatten(es[1..]);
      assert es == [es[0]] + es[1..];
    }
  }

  /** The total length of entries laid out together. */
  lemma {:induction false} FlattenLength(es: seq<seq<Byte>>, lens: seq<nat>)
    requires |lens| == |es| && forall k :: 0 <= k < |es| ==> |es[k]| == lens[k]
    ensures |Flatten(es)| == Sum(lens)
    decreases |es|
  {
    if es != [] {
      FlattenLength(es[1..], lens[1..]);
    }
  }

  function Sum(ns: seq<nat>): nat
    decreases |ns|
  {
    if ns == [] then 0 else ns[0] + Sum(ns[1..])
  }

  /** Every entry of the configuration descriptor starts with its own length. */
  lemma EntriesSelfSized()
    ensures SelfSized(CONFIG_ENTRIES)
    ensures |CONFIG_HEADER| == 9 && CONFIG_HEADER[2] + 0x100 * CONFIG_HEADER[3] == CONFIG_TOTAL_LEN
  {
    var lens := [9, 8, 9, 5, 5, 4, 5, 7, 9, 7, 7];
    assert forall k :: 0 <= k < |CONFIG_ENTRIES| ==> |CONFIG_ENTRIES[k]| == lens[k] && CONFIG_ENTRIES[k][0] == lens[k];
  }

  /** The hand-written CDC block has the size `TUD_CDC_DESCRIPTOR` gives, so the whole array is
      `CONFIG_TOTAL_LEN` bytes, the wTotalLength the header declares; a host's walk by length
      bytes finds exactly the eleven entries, ending at the last byte. */
  lemma ConfigurationConsistent()
    ensures |Configuration()| == CONFIG_TOTAL_LEN == 75
    ensures Configuration()[2] + 0x100 * Configuration()[3] == |Configuration()|
    ensures Split(Configuration()) == Some(CONFIG_ENTRIES)
  {
    var lens := [9, 8, 9, 5, 5, 4, 5, 7, 9, 7, 7];
    EntriesSelfSized();
    FlattenLength(CONFIG_ENTRIES, lens);
    assert Sum(lens) == 75;
    SplitFlatten(CONFIG_ENTRIES);
    assert Configuration() == CONFIG_HEADER + Flatten(CONFIG_ENTRIES[1..]);
  }
}
