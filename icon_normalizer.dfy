/** Conversion of a rasterised application icon to 8-bit RGBA
    (ns_image_to_rgba in src/macos.rs). */
module IconNormalizer {
  import opened Wrappers
  import opened Bytes

  /** What rasterising the icon at 16x16 produced: the CGImage's reported
      geometry and depth, and its pixel bytes if the data provider has them. */
  datatype RasterImage = RasterImage(width: nat, height: nat, bytesPerRow: nat,
                                     bitsPerPixel: nat, data: Option<seq<byte>>)

  datatype IconData = IconData(rgba: seq<byte>, width: u32, height: u32)

  /** The 64 bits-per-pixel branch (half-float channels, clamped and scaled). */
  type HalfFloatDecoder = RasterImage -> seq<byte>

  const Opaque: byte := 255

  /** Each complete 3-byte chunk followed by a fully opaque alpha byte; a
      trailing partial chunk is dropped. */
  function ExpandedRgb(raw: seq<byte>): (rgba: seq<byte>)
  {
    if |raw| < 3 then [] else raw[..3] + [Opaque] + ExpandedRgb(raw[3..])
  }

  /** The layout of the expansion: 4 bytes per complete chunk, every 4th byte
      opaque, the others copied from the matching chunk. */
  lemma {:induction false} ExpandedRgbLayout(raw: seq<byte>)
    ensures |ExpandedRgb(raw)| == 4 * (|raw| / 3)
    ensures forall i :: 0 <= i < |ExpandedRgb(raw)| ==>
              ExpandedRgb(raw)[i] == if i % 4 == 3 then Opaque else raw[3 * (i / 4) + i % 4]
  {
    if |raw| >= 3 {
      var rest := ExpandedRgb(raw[3..]);
      ExpandedRgbLayout(raw[3..]);
      var r := ExpandedRgb(raw);
      assert r == raw[..3] + [Opaque] + rest;
      forall i | 4 <= i < |r|
        ensures r[i] == if i % 4 == 3 then Opaque else raw[3 * (i / 4) + i % 4]
      {
        var j := i - 4;
        assert r[i] == rest[j];
        assert i % 4 == j % 4 && i / 4 == j / 4 + 1;
      }
    }
  }

  /** Dropping every 4th byte of the expansion recovers the complete chunks. */
  function StripAlpha(rgba: seq<byte>): seq<byte> {
    if |rgba| < 4 then [] else rgba[..3] + StripAlpha(rgba[4..])
  }

  lemma {:induction false} StripAlphaOfExpansion(raw: seq<byte>)
    ensures StripAlpha(ExpandedRgb(raw)) == raw[..3 * (|raw| / 3)]
  {
    if |raw| >= 3 {
      StripAlphaOfExpansion(raw[3..]);
      var r := ExpandedRgb(raw);
      assert r[4..] == ExpandedRgb(raw[3..]);
      assert raw[..3 * (|raw| / 3)] == raw[..3] + raw[3..][..3 * (|raw[3..]| / 3)];
    }
  }

  /** `let rgba: Vec; for chunk in raw.chunks_exact(3) { extend(chunk); push(255) }` */
  method ExpandRgb(raw: seq<byte>) returns (rgba: seq<byte>)
    ensures rgba == ExpandedRgb(raw)
  {
    rgba := [];
    var i := 0;
    while i + 3 <= |raw|
      invariant 0 <= i <= |raw|
      invariant rgba + ExpandedRgb(raw[i..]) == ExpandedRgb(raw)
    {
      assert raw[i..][3..] == raw[i + 3..];
      rgba := rgba + raw[i..i + 3] + [Opaque];
      i := i + 3;
    }
  }

  /** The reference conversion: nothing without pixel data; 24 bpp expanded,
      32 bpp passed through, 64 bpp decoded, any other depth rejected. */
  function Normalized(image: Option<RasterImage>, halfFloat: HalfFloatDecoder): (r: Option<IconData>)
    ensures image.None? || image.value.data.None? ==> r.None?
    ensures image.Some? && image.value.data.Some? ==>
              var img := image.value;
              && (img.bitsPerPixel !in {24, 32, 64} <==> r.None?)
              && (r.Some? ==> r.value.width == TruncateU32(img.width) && r.value.height == TruncateU32(img.height))
              && (img.bitsPerPixel == 24 ==> r.value.rgba == ExpandedRgb(img.data.value))
              && (img.bitsPerPixel == 32 ==> r.value.rgba == img.data.value)
              && (img.bitsPerPixel == 64 ==> r.value.rgba == halfFloat(img))
  {
    match image
    case None => None
    case Some(img) =>
      match img.data
      case None => None
      case Some(raw) =>
        var rgba :=
          if img.bitsPerPixel == 24 then Some(ExpandedRgb(raw))
          else if img.bitsPerPixel == 32 then Some(raw)
          else if img.bitsPerPixel == 64 then Some(halfFloat(img))
          else None;
        if rgba.None? then None
        else Some(IconData(rgba.value, TruncateU32(img.width), TruncateU32(img.height)))
  }

  /** `ns_image_to_rgba`, from the rasterised image on. */
  method NsImageToRgba(image: Option<RasterImage>, halfFloat: HalfFloatDecoder)
    returns (r: Option<IconData>)
    ensures r == Normalized(image, halfFloat)
  {
    if image.None? {
      return None;
    }
    var img := image.value;
    var width := TruncateU32(img.width);
    var height := TruncateU32(img.height);
    if img.data.None? {
      return None;
    }
    var raw := img.data.value;
    var rgba: seq<byte>;
    if img.bitsPerPixel == 24 {
      rgba := ExpandRgb(raw);
    } else if img.bitsPerPixel == 32 {
      rgba := raw;
    } else if img.bitsPerPixel == 64 {
      rgba := halfFloat(img);
    } else {
      return None;
    }
    return Some(IconData(rgba, width, height));
  }

  /** A 24-bpp image of n pixels (3n bytes) becomes 4n bytes, every 4th one opaque. */
  lemma Rgb24Icon(img: RasterImage, halfFloat: HalfFloatDecoder, n: nat)
    requires img.bitsPerPixel == 24 && img.data.Some? && |img.data.value| == 3 * n
    ensures var r := Normalized(Some(img), halfFloat);
      && r.Some? && |r.value.rgba| == 4 * n
      && (forall p :: 0 <= p < n ==> r.value.rgba[4 * p + 3] == Opaque)
      && StripAlpha(r.value.rgba) == img.data.value
  {
    var raw := img.data.value;
    ExpandedRgbLayout(raw);
    StripAlphaOfExpansion(raw);
    assert raw[..3 * (|raw| / 3)] == raw;
    forall p | 0 <= p < n
      ensures ExpandedRgb(raw)[4 * p + 3] == Opaque
    {
      assert (4 * p + 3) % 4 == 3;
    }
  }
}
