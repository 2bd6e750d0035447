/** The image's TIFF tags and the channel queries over them (tiffimage.h).

    Tag values are those of TIFF 6.0: PhotometricInterpretation and
    ExtraSamples (section 8), Separated/CMYK (section 16) and associated
    alpha (section 18).  The queries are pure; the image itself is a class,
    because the pipeline replaces its fields in place. */
module TiffImage {
  import opened Bytes

  const PHOTOMETRIC_MINISWHITE: U16 := 0
  const PHOTOMETRIC_MINISBLACK: U16 := 1
  const PHOTOMETRIC_RGB: U16 := 2
  const PHOTOMETRIC_SEPARATED: U16 := 5

  const PLANARCONFIG_CONTIG: U16 := 1

  const EXTRASAMPLE_UNSPECIFIED: U16 := 0
  const EXTRASAMPLE_ASSOCALPHA: U16 := 1
  const EXTRASAMPLE_UNASSALPHA: U16 := 2

  const RESUNIT_INCH: U16 := 2
  const ORIENTATION_TOPLEFT: U16 := 1
  const COMPRESSION_NONE: U16 := 1

  /** isAlphaSample: an ExtraSamples code that marks an alpha channel. */
  predicate IsAlphaSample(code: U16)
  {
    code == EXTRASAMPLE_ASSOCALPHA || code == EXTRASAMPLE_UNASSALPHA
  }

  /** A photometric interpretation that baseColorSamples has no case for. */
  predicate UnlistedPhotometric(p: U16)
  {
    p !in {PHOTOMETRIC_RGB, PHOTOMETRIC_SEPARATED, PHOTOMETRIC_MINISBLACK, PHOTOMETRIC_MINISWHITE}
  }

  /** The loop of hasAlpha from index i on. */
  function AnyAlphaFrom(extras: seq<U16>, i: nat): (b: bool)
    ensures b <==> exists j :: i <= j < |extras| && IsAlphaSample(extras[j])
    decreases |extras| - i
  {
    if i >= |extras| then false
    else if IsAlphaSample(extras[i]) then true
    else AnyAlphaFrom(extras, i + 1)
  }

  /** The loop of findAlphaExtraIndex from index i on: the first index at or
      after i that holds an alpha code, or -1 when there is none. */
  function FirstAlphaFrom(extras: seq<U16>, i: nat): (k: int)
    ensures k == -1 || (i <= k < |extras| && IsAlphaSample(extras[k]))
    ensures k >= 0 ==> forall j :: i <= j < k ==> !IsAlphaSample(extras[j])
    ensures k == -1 <==> forall j :: i <= j < |extras| ==> !IsAlphaSample(extras[j])
    decreases |extras| - i
  {
    if i >= |extras| then -1
    else if IsAlphaSample(extras[i]) then i
    else FirstAlphaFrom(extras, i + 1)
  }

  /** The loop of alphaSampleIndex from index i on: base plus the first alpha
      index, or -1. */
  function AlphaSampleFrom(base: int, extras: seq<U16>, i: nat): int
    decreases |extras| - i
  {
    if i >= |extras| then -1
    else if IsAlphaSample(extras[i]) then base + i
    else AlphaSampleFrom(base, extras, i + 1)
  }

  /** The tags the pipeline reads and writes.  The floating-point resolutions
      are not part of this model. */
  datatype TiffMeta = TiffMeta(
    width: U32,
    height: U32,
    samplesPerPixel: U16,
    bitsPerSample: U16,
    photometric: U16,
    planarConfig: U16,
    resolutionUnit: U16,
    extraSamples: seq<U16>,
    orientation: U16,
    compression: U16)
  {
    /** hasAlpha: some extra sample is an alpha channel. */
    function HasAlpha(): (b: bool)
      ensures b <==> exists j :: 0 <= j < |extraSamples| && IsAlphaSample(extraSamples[j])
    {
      AnyAlphaFrom(extraSamples, 0)
    }

    /** baseColorSamples: the colour channels the photometric interpretation
        implies, or whatever the extra samples leave of samplesPerPixel. */
    function BaseColorSamples(): (n: int)
      ensures photometric == PHOTOMETRIC_RGB ==> n == 3
      ensures photometric == PHOTOMETRIC_SEPARATED ==> n == 4
      ensures photometric == PHOTOMETRIC_MINISBLACK || photometric == PHOTOMETRIC_MINISWHITE ==> n == 1
      ensures UnlistedPhotometric(photometric) ==> n + |extraSamples| == samplesPerPixel
    {
      if photometric == PHOTOMETRIC_RGB then 3
      else if photometric == PHOTOMETRIC_SEPARATED then 4
      else if photometric == PHOTOMETRIC_MINISBLACK || photometric == PHOTOMETRIC_MINISWHITE then 1
      else samplesPerPixel as int - |extraSamples|
    }

    /** alphaSampleIndex: the sample index of the first alpha channel, counted
        after the base colour channels, or -1 when there is none. */
    function AlphaSampleIndex(): int
    {
      AlphaSampleFrom(BaseColorSamples(), extraSamples, 0)
    }
  }

  /** findAlphaExtraIndex: the first index of an alpha code among the extra
      samples, or -1. */
  function FindAlphaExtraIndex(meta: TiffMeta): (k: int)
    ensures k == -1 || (0 <= k < |meta.extraSamples| && IsAlphaSample(meta.extraSamples[k]))
    ensures k >= 0 ==> forall j :: 0 <= j < k ==> !IsAlphaSample(meta.extraSamples[j])
  {
    FirstAlphaFrom(meta.extraSamples, 0)
  }

  /** hasAlpha and findAlphaExtraIndex agree: an alpha exists exactly when the
      search finds one. */
  lemma HasAlphaIffFound(meta: TiffMeta)
    ensures meta.HasAlpha() <==> FindAlphaExtraIndex(meta) >= 0
  {
  }

  lemma {:induction false} AlphaSampleFromIsFirst(base: int, extras: seq<U16>, i: nat)
    ensures AlphaSampleFrom(base, extras, i) ==
      if FirstAlphaFrom(extras, i) >= 0 then base + FirstAlphaFrom(extras, i) else -1
    decreases |extras| - i
  {
    if i < |extras| && !IsAlphaSample(extras[i]) {
      AlphaSampleFromIsFirst(base, extras, i + 1);
    }
  }

  /** alphaSampleIndex is the base colour count plus findAlphaExtraIndex when
      an alpha exists, and -1 otherwise. */
  lemma AlphaSampleIndexIsBasePlusFound(meta: TiffMeta)
    ensures meta.HasAlpha() ==> meta.AlphaSampleIndex() == meta.BaseColorSamples() + FindAlphaExtraIndex(meta)
    ensures !meta.HasAlpha() ==> meta.AlphaSampleIndex() == -1
  {
    AlphaSampleFromIsFirst(meta.BaseColorSamples(), meta.extraSamples, 0);
  }

  /** photometricToString: a label for every code, "(Other)" for the codes it
      does not list (MinIsWhite among them). */
  function PhotometricToString(p: U16): (name: string)
    ensures name == "(Other)" <==> p !in {PHOTOMETRIC_RGB, PHOTOMETRIC_SEPARATED, PHOTOMETRIC_MINISBLACK}
    ensures p == PHOTOMETRIC_RGB ==> name == "(RGB)"
    ensures p == PHOTOMETRIC_SEPARATED ==> name == "(CMYK)"
    ensures p == PHOTOMETRIC_MINISBLACK ==> name == "(Gray)"
  {
    if p == PHOTOMETRIC_RGB then "(RGB)"
    else if p == PHOTOMETRIC_SEPARATED then "(CMYK)"
    else if p == PHOTOMETRIC_MINISBLACK then "(Gray)"
    else "(Other)"
  }

  /** extraSampleToString: a label for every code, "(UNKNOWN)" past the three
      codes TIFF 6.0 defines. */
  function ExtraSampleToString(v: U16): (name: string)
    ensures name == "(UNKNOWN)" <==> v > EXTRASAMPLE_UNASSALPHA
    ensures v == EXTRASAMPLE_UNSPECIFIED ==> name == "(UNSPECIFIED)"
    ensures v == EXTRASAMPLE_ASSOCALPHA ==> name == "(ASSOC_ALPHA)"
    ensures v == EXTRASAMPLE_UNASSALPHA ==> name == "(UNASSOC_ALPHA)"
  {
    if v == EXTRASAMPLE_UNSPECIFIED then "(UNSPECIFIED)"
    else if v == EXTRASAMPLE_ASSOCALPHA then "(ASSOC_ALPHA)"
    else if v == EXTRASAMPLE_UNASSALPHA then "(UNASSOC_ALPHA)"
    else "(UNKNOWN)"
  }

  /** An image: its tags and its raw pixel bytes (TiffImage with TiffRawData
      folded in).  For 8-bit contiguous data the buffer holds the samples of
      each pixel one after the other. */
  class TiffImage {
    var meta: TiffMeta
    var buffer: array<Byte>
    var bytesPerRow: U32

    constructor(meta: TiffMeta, pixels: seq<Byte>, bytesPerRow: U32)
      ensures this.meta == meta && this.buffer[..] == pixels && this.bytesPerRow == bytesPerRow
      ensures fresh(this.buffer)
    {
      this.meta := meta;
      this.buffer := new Byte[|pixels|](i requires 0 <= i < |pixels| => pixels[i]);
      this.bytesPerRow := bytesPerRow;
    }

    /** channelCount: all samples of a pixel. */
    function ChannelCount(): (n: int)
      reads this
      ensures n == meta.samplesPerPixel
    {
      meta.samplesPerPixel as int
    }

    /** isRGBLike: 8-bit RGB, the format shown without conversion. */
    predicate IsRGBLike(): (b: bool)
      reads this
      ensures b <==> meta.photometric == PHOTOMETRIC_RGB && meta.bitsPerSample == 8
    {
      meta.photometric == PHOTOMETRIC_RGB && meta.bitsPerSample == 8
    }

    /** extraSampleCount: the number of ExtraSamples entries. */
    function ExtraSampleCount(): (n: int)
      reads this
      ensures n == |meta.extraSamples|
    {
      |meta.extraSamples|
    }

    /** An RGB-like image has three base colour channels; for a photometric
        interpretation the queries do not list, base and extra channels add
        up to all channels. */
    lemma ChannelsSplit()
      ensures IsRGBLike() ==> meta.BaseColorSamples() == 3
      ensures UnlistedPhotometric(meta.photometric) ==> meta.BaseColorSamples() + ExtraSampleCount() == ChannelCount()
    {
    }
  }
}
