/** The synthetic "make key window" event record posted to a process
    (make_key_window in src/macos.rs). */
module KeyWindow {
  import opened Bytes

  /** A CGError code; zero is success. */
  type CGError = int
  const Success: CGError := 0

  /** A legacy process serial number (two 32-bit halves). */
  datatype Psn = Psn(high: u32, low: u32)

  /** Record layout: a 0xF8-byte buffer with a handful of fixed fields. */
  const RecordSize: nat := 0xF8
  const SizeOffset: nat := 0x04
  const FlavourOffset: nat := 0x08
  const MarkerStart: nat := 0x20
  const MarkerEnd: nat := 0x30
  const TypeOffset: nat := 0x3A
  const TypeTag: byte := 0x10
  const WindowIdOffset: nat := 0x3C

  /** The two flavours, posted in this order. */
  const KeyDown: byte := 0x01
  const KeyUp: byte := 0x02

  /** The byte expected at offset i of the record for window `id` and the given flavour. */
  function LayoutByte(id: u32, flavour: byte, i: nat): byte {
    if i == SizeOffset then 0xF8
    else if i == FlavourOffset then flavour
    else if i == TypeOffset then TypeTag
    else if WindowIdOffset <= i < WindowIdOffset + 4 then LeBytes(id, 4)[i - WindowIdOffset]
    else if MarkerStart <= i < MarkerEnd then 0xFF
    else 0
  }

  /** r is the key-window record for window `id` with the given flavour byte. */
  ghost predicate IsKeyWindowRecord(r: seq<byte>, id: u32, flavour: byte) {
    |r| == RecordSize && forall i :: 0 <= i < |r| ==> r[i] == LayoutByte(id, flavour, i)
  }

  /** The record itself, as a value. */
  function Record(id: u32, flavour: byte): (r: seq<byte>)
    ensures IsKeyWindowRecord(r, id, flavour)
  {
    seq(RecordSize, (i: nat) => LayoutByte(id, flavour, i))
  }

  /** The layout fixes every byte: a record for `id` and `flavour` is `Record(id, flavour)`. */
  lemma RecordUnique(r: seq<byte>, id: u32, flavour: byte)
    requires IsKeyWindowRecord(r, id, flavour)
    ensures r == Record(id, flavour)
  {
    var q := Record(id, flavour);
    assert forall i :: 0 <= i < |r| ==> r[i] == q[i];
  }

  /** Builds the record in a zeroed buffer and posts it to `psn` twice, first
      with flavour KeyDown and then, only if that post succeeded, with flavour
      KeyUp.  `post` is the window server's answer to each post; `posted` lists
      the records actually posted, in order. */
  method MakeKeyWindow(id: u32, psn: Psn, post: (Psn, seq<byte>) -> CGError)
    returns (res: CGError, posted: seq<seq<byte>>)
    ensures 1 <= |posted| <= 2
    ensures IsKeyWindowRecord(posted[0], id, KeyDown)
    ensures |posted| == 2 ==> IsKeyWindowRecord(posted[1], id, KeyUp)
    ensures |posted| == 2 <==> post(psn, posted[0]) == Success
    ensures |posted| == 1 ==> res == post(psn, posted[0])
    ensures |posted| == 2 ==> res == post(psn, posted[1])
  {
    var bytes := new byte[RecordSize](_ => 0);

    bytes[SizeOffset] := 0xF8;
    bytes[TypeOffset] := TypeTag;

    var widBytes := LeBytes(id, 4);
    bytes[WindowIdOffset] := widBytes[0];
    bytes[WindowIdOffset + 1] := widBytes[1];
    bytes[WindowIdOffset + 2] := widBytes[2];
    bytes[WindowIdOffset + 3] := widBytes[3];

    var i := MarkerStart;
    while i < MarkerEnd
      invariant MarkerStart <= i <= MarkerEnd
      invariant forall k :: 0 <= k < RecordSize ==>
        bytes[k] == if k == FlavourOffset || i <= k < MarkerEnd then 0 else LayoutByte(id, 0, k)
    {
      bytes[i] := 0xFF;
      i := i + 1;
    }

    bytes[FlavourOffset] := KeyDown;
    var first := bytes[..];
    posted := [first];
    res := post(psn, first);
    if res != Success {
      return;
    }

    bytes[FlavourOffset] := KeyUp;
    var second := bytes[..];
    posted := posted + [second];
    res := post(psn, second);
    if res != Success {
      return;
    }
    res := Success;
  }

  /** The window id can be read back from bytes 0x3C..0x40 of the record. */
  lemma RecordWindowId(r: seq<byte>, id: u32, flavour: byte)
    requires IsKeyWindowRecord(r, id, flavour)
    ensures LeValue(r[WindowIdOffset..WindowIdOffset + 4]) == id
  {
    assert r[WindowIdOffset..WindowIdOffset + 4] == LeBytes(id, 4);
    LeRoundTrip(id, 4);
  }

  /** The fields of the record, one by one: size byte, type tag, all-ones
      marker, window id, and zero everywhere else except the flavour byte. */
  lemma RecordFields(r: seq<byte>, id: u32, flavour: byte)
    requires IsKeyWindowRecord(r, id, flavour)
    ensures |r| == 0xF8
    ensures r[0x04] == 0xF8 && r[0x3A] == 0x10 && r[0x08] == flavour
    ensures forall i :: 0x20 <= i < 0x30 ==> r[i] == 0xFF
    ensures r[0x3C..0x40] == LeBytes(id, 4)
    ensures forall i :: 0 <= i < 0xF8 && i !in {0x04, 0x08, 0x3A, 0x3C, 0x3D, 0x3E, 0x3F} && !(0x20 <= i < 0x30)
                ==> r[i] == 0
  {
  }

  /** The records of the two posts differ in the flavour byte only. */
  lemma DownUpDifferOnlyInFlavour(down: seq<byte>, up: seq<byte>, id: u32)
    requires IsKeyWindowRecord(down, id, KeyDown) && IsKeyWindowRecord(up, id, KeyUp)
    ensures |down| == |up|
    ensures forall i :: 0 <= i < |down| && i != FlavourOffset ==> down[i] == up[i]
    ensures down[FlavourOffset] == KeyDown && up[FlavourOffset] == KeyUp
  {
  }

  /** Two records of the same flavour that carry the same window id are equal,
      and records for different window ids differ. */
  lemma RecordDeterminesWindow(a: seq<byte>, b: seq<byte>, id: u32, id': u32, flavour: byte)
    requires IsKeyWindowRecord(a, id, flavour) && IsKeyWindowRecord(b, id', flavour)
    ensures a == b <==> id == id'
  {
    if a == b {
      RecordWindowId(a, id, flavour);
      RecordWindowId(b, id', flavour);
    }
  }
}
