/** The export pipeline of tiffprocess.cpp (genernateTiffFile) and the guard of
    its writer (writeTiff): the loaded image is converted for display, scored
    for blackness, thresholded into a mask, cleaned of small specks, turned
    into white ink, and injected back into the image as an alpha channel and
    two spot channels before the image is written out. */
module TiffPipeline {
  import opened Bytes
  import opened CvMat
  import opened TiffImage
  import opened TiffProcess
  import ExtraChannels
  import PsTemplate

  // ---------------------------------------------------------------------------
  // writeTiff
  // ---------------------------------------------------------------------------

  /** A loaded Photoshop template describes the image being written: the
      same samples per pixel and the same number of extra samples. */
  predicate TemplateMatches(meta: TiffMeta, ps: PsTemplate.Template)
  {
    meta.samplesPerPixel == ps.spp && |meta.extraSamples| == ps.extra
  }

  /** The status writeTiff returns.  Opening the output file and writing each
      scanline are I/O: whether the open succeeds and whether some scanline
      write fails come in as parameters. */
  function WriteStatus(meta: TiffMeta, bufferLen: nat, ps: PsTemplate.Template, fileOpened: bool, rowWriteFails: bool): (r: int)
    ensures r in {0, -1, -2, -3, -10}
    ensures r == -1 <==> bufferLen == 0
    ensures r == -10 ==> |ps.ps34377| > 0 && !TemplateMatches(meta, ps)
    ensures r == -3 ==> meta.height > 0 && rowWriteFails
  {
    if bufferLen == 0 then -1
    else if !fileOpened then -2
    else if |ps.ps34377| > 0 && !TemplateMatches(meta, ps) then -10
    else if meta.height > 0 && rowWriteFails then -3
    else 0
  }

  /** A non-empty template is only ever written into a file whose sample
      layout it describes, and an empty template never blocks a write. */
  lemma WriteNeverMismatchesTemplate(meta: TiffMeta, bufferLen: nat, ps: PsTemplate.Template, fileOpened: bool, rowWriteFails: bool)
    ensures WriteStatus(meta, bufferLen, ps, fileOpened, rowWriteFails) == 0 && |ps.ps34377| > 0 ==> TemplateMatches(meta, ps)
    ensures |ps.ps34377| == 0 ==> WriteStatus(meta, bufferLen, ps, fileOpened, rowWriteFails) != -10
    ensures bufferLen > 0 && fileOpened && (|ps.ps34377| == 0 || TemplateMatches(meta, ps)) && (meta.height == 0 || !rowWriteFails) ==>
              WriteStatus(meta, bufferLen, ps, fileOpened, rowWriteFails) == 0
  {
  }

  // ---------------------------------------------------------------------------
  // genernateTiffFile
  // ---------------------------------------------------------------------------

  /** connectedComponentsWithStats, as a function of the mask: it labels every
      single-channel mask. */
  ghost predicate LabelsEveryMask(connected: Mat -> Labelling)
  {
    forall m: Mat :: m.Valid() && m.kind == U8C1 ==> IsLabelling(m, connected(m))
  }

  /** The display image generateRgbMat produces. */
  function DisplayMat(meta: TiffMeta, buf: seq<Byte>): (rgb: Mat)
    requires Convertible(meta) && BufferHolds(meta, buf)
    ensures rgb.Valid() && rgb.kind == U8C3 && !rgb.Empty()
    ensures rgb.rows == meta.height && rgb.cols == meta.width
  {
    Mat(meta.height, meta.width, U8C3, DisplayImage(meta, buf))
  }

  /** The blackness image calcBlackness produces. */
  function BlacknessMat(rgb: Mat, measure: BlacknessMethod, floatScore: FloatScore): (b: Mat)
    requires rgb.Valid() && rgb.kind == U8C3 && !measure.Unrecognized?
    ensures b.Valid() && b.kind == U8C1 && b.SameSize(rgb)
  {
    Mat(rgb.rows, rgb.cols, U8C1, BlacknessImage(rgb, measure, floatScore))
  }

  /** What the image-analysis stages produce: a failing status, or the
      cleaned mask and the white-ink image. */
  datatype Analysis = Failed(status: int) | Masks(noNoise: Mat, whiteInk: Mat)

  /** The stages before the injection, each one's status checked in the
      source's order: display conversion, blackness, the inverted threshold,
      the speck filter, the white compensation and its complement. */
  function Analyse(meta: TiffMeta, buf: seq<Byte>, measure: BlacknessMethod, blacknessThresh: int, noiseThresh: int,
                   floatScore: FloatScore, connected: Mat -> Labelling): (a: Analysis)
    requires RgbStatus(meta) == 0 ==> BufferHolds(meta, buf)
    requires LabelsEveryMask(connected)
    ensures a.Failed? ==> a.status != 0
  {
    if RgbStatus(meta) != 0 then Failed(RgbStatus(meta))
    else
      var rgb := DisplayMat(meta, buf);
      if BlacknessStatus(rgb, measure) != 0 then Failed(BlacknessStatus(rgb, measure))
      else
        var blackness := BlacknessMat(rgb, measure, floatScore);
        if MaskStatus(blackness) != 0 then Failed(MaskStatus(blackness))
        else
          var noBlack := ThresholdInv(blackness, blacknessThresh);
          if MaskStatus(noBlack) != 0 then Failed(MaskStatus(noBlack))
          else
            var noNoise := ComponentsFilter(noBlack, noiseThresh, connected(noBlack));
            if WhiteStatus(blackness, noNoise, blacknessThresh) != 0 then Failed(WhiteStatus(blackness, noNoise, blacknessThresh))
            else Masks(noNoise, Complement(WhiteImage(blackness, noNoise, blacknessThresh)))
  }

  /** Which stages can fail: the display conversion, an unrecognised
      blackness measure, and a threshold outside 1..255 in the white
      compensation.  The other checks (the empty display image, the inputs
      of removeBlack and removeSmallComponents, and the empty, type and size
      checks of the white compensation) never fire on what the earlier
      stages produce. */
  lemma AnalyseFailures(meta: TiffMeta, buf: seq<Byte>, measure: BlacknessMethod, blacknessThresh: int, noiseThresh: int,
                        floatScore: FloatScore, connected: Mat -> Labelling)
    requires RgbStatus(meta) == 0 ==> BufferHolds(meta, buf)
    requires LabelsEveryMask(connected)
    ensures var a := Analyse(meta, buf, measure, blacknessThresh, noiseThresh, floatScore, connected);
            (RgbStatus(meta) != 0 ==> a == Failed(RgbStatus(meta))) &&
            (RgbStatus(meta) == 0 && measure.Unrecognized? ==> a == Failed(-2)) &&
            (RgbStatus(meta) == 0 && !measure.Unrecognized? ==>
               (a.Failed? <==> !(0 < blacknessThresh <= 255)) && (a.Failed? ==> a.status == -4))
  {
    if RgbStatus(meta) == 0 && !measure.Unrecognized? {
      var blackness := BlacknessMat(DisplayMat(meta, buf), measure, floatScore);
      var noBlack := ThresholdInv(blackness, blacknessThresh);
      var noNoise := ComponentsFilter(noBlack, noiseThresh, connected(noBlack));
      assert WhiteStatus(blackness, noNoise, blacknessThresh) == (if 0 < blacknessThresh <= 255 then 0 else -4);
    }
  }

  /** The masks the analysis hands to the injector: the cleaned mask is
      binary and only covers pixels whose blackness is at most the threshold;
      the white ink is full wherever the mask is clear and wherever the pixel
      is at least as black as the threshold. */
  lemma AnalysedMasks(meta: TiffMeta, buf: seq<Byte>, measure: BlacknessMethod, blacknessThresh: int, noiseThresh: int,
                      floatScore: FloatScore, connected: Mat -> Labelling)
    requires RgbStatus(meta) == 0 ==> BufferHolds(meta, buf)
    requires LabelsEveryMask(connected)
    requires Analyse(meta, buf, measure, blacknessThresh, noiseThresh, floatScore, connected).Masks?
    ensures var a := Analyse(meta, buf, measure, blacknessThresh, noiseThresh, floatScore, connected);
            var b := BlacknessMat(DisplayMat(meta, buf), measure, floatScore);
            var n := meta.width * meta.height;
            a.noNoise.Valid() && a.noNoise.kind == U8C1 && a.noNoise.rows == meta.height && a.noNoise.cols == meta.width &&
            |a.whiteInk.data| == |b.data| == n &&
            (forall i :: 0 <= i < n ==> a.noNoise.data[i] in {0, 255}) &&
            (forall i :: 0 <= i < n && a.noNoise.data[i] == 255 ==> b.data[i] <= blacknessThresh) &&
            (forall i :: 0 <= i < n && a.noNoise.data[i] == 0 ==> a.whiteInk.data[i] == 255) &&
            (forall i :: 0 <= i < n && b.data[i] >= blacknessThresh ==> a.whiteInk.data[i] == 255)
  {
    var rgb := DisplayMat(meta, buf);
    var b := BlacknessMat(rgb, measure, floatScore);
    var noBlack := ThresholdInv(b, blacknessThresh);
    var noNoise := ComponentsFilter(noBlack, noiseThresh, connected(noBlack));
    assert |b.data| == meta.height * meta.width;
    forall i | 0 <= i < |noNoise.data| && noNoise.data[i] == 255
      ensures b.data[i] <= blacknessThresh
    {
      assert noBlack.data[i] != 0;
    }
  }

  /** The meta data and pixel bytes the image holds after the injection. */
  datatype Injected = Injected(meta: TiffMeta, buffer: seq<Byte>)

  /** The injection's effect on an image whose analysis produced masks:
      the new ExtraSamples list, the sample count as stored (a uint16_t) and
      the rebuilt buffer.  The spot channels both carry the white ink. */
  function Inject(meta: TiffMeta, buf: seq<Byte>, noNoise: Mat, whiteInk: Mat): (r: Injected)
    requires ExtraChannels.ColorChannels(meta) != -1
    ensures |r.buffer| == meta.width * meta.height * ExtraChannels.NewSpp(meta)
  {
    Injected(meta.(extraSamples := ExtraChannels.NewExtraSamples(meta),
                   samplesPerPixel := ExtraChannels.NewSpp(meta) % 0x1_0000),
             ExtraChannels.InjectedBuffer(meta, buf, noNoise, whiteInk, whiteInk))
  }

  /** The status genernateTiffFile returns: the first failing stage's status,
      else the injection's, else the writer's on the injected image. */
  function PipelineStatus(meta: TiffMeta, buf: seq<Byte>, measure: BlacknessMethod, blacknessThresh: int, noiseThresh: int,
                          floatScore: FloatScore, connected: Mat -> Labelling,
                          ps: PsTemplate.Template, fileOpened: bool, rowWriteFails: bool): int
    requires RgbStatus(meta) == 0 ==> BufferHolds(meta, buf)
    requires LabelsEveryMask(connected)
  {
    match Analyse(meta, buf, measure, blacknessThresh, noiseThresh, floatScore, connected)
    case Failed(s) => s
    case Masks(noNoise, whiteInk) =>
      var s := ExtraChannels.InjectStatus(meta, noNoise, whiteInk, whiteInk);
      if s != 0 then s
      else
        var after := Inject(meta, buf, noNoise, whiteInk);
        WriteStatus(after.meta, |after.buffer|, ps, fileOpened, rowWriteFails)
  }

  /** Once the analysis and the injection succeed, the exported status is
      the writer's, which never reports an empty buffer; with the file opened
      and every scanline written it succeeds exactly when there is no
      template or the template was made for the injected layout: the new
      sample count (as stored) and the new number of extra samples. */
  lemma InjectedThenWritten(meta: TiffMeta, buf: seq<Byte>, measure: BlacknessMethod, blacknessThresh: int, noiseThresh: int,
                            floatScore: FloatScore, connected: Mat -> Labelling,
                            ps: PsTemplate.Template, fileOpened: bool, rowWriteFails: bool)
    requires RgbStatus(meta) == 0 ==> BufferHolds(meta, buf)
    requires LabelsEveryMask(connected)
    requires var a := Analyse(meta, buf, measure, blacknessThresh, noiseThresh, floatScore, connected);
             a.Masks? && ExtraChannels.InjectStatus(meta, a.noNoise, a.whiteInk, a.whiteInk) == 0
    ensures var a := Analyse(meta, buf, measure, blacknessThresh, noiseThresh, floatScore, connected);
            var after := Inject(meta, buf, a.noNoise, a.whiteInk);
            var status := PipelineStatus(meta, buf, measure, blacknessThresh, noiseThresh, floatScore, connected, ps, fileOpened, rowWriteFails);
            status == WriteStatus(after.meta, |after.buffer|, ps, fileOpened, rowWriteFails) && status != -1 &&
            (fileOpened && !rowWriteFails ==>
               (status == 0 <==>
                  |ps.ps34377| == 0 ||
                  (ps.spp == ExtraChannels.NewSpp(meta) % 0x1_0000 && ps.extra == |ExtraChannels.NewExtraSamples(meta)|)))
  {
    var a := Analyse(meta, buf, measure, blacknessThresh, noiseThresh, floatScore, connected);
    var n := meta.width * meta.height;
    assert |a.noNoise.data| == meta.height * meta.width;
    TiffProcess.MulLeft(1, n, ExtraChannels.NewSpp(meta));
  }

  /** The tiffProcess singleton: the image it has loaded and exports. */
  class Processor {
    var tiff: TiffImage

    constructor(image: TiffImage)
      ensures tiff == image
    {
      tiff := image;
    }

    /** genernateTiffFile: runs the stages in order, returning the first
        non-zero status; after a successful injection the loaded image keeps
        the injected channels whatever the writer returns, and before it the
        image is untouched. */
    method GenerateTiffFile(measure: BlacknessMethod, blacknessThresh: int, noiseThresh: int, ps: PsTemplate.Template,
                            floatScore: FloatScore, connected: Mat -> Labelling, fileOpened: bool, rowWriteFails: bool)
      returns (status: int)
      requires RgbStatus(tiff.meta) == 0 ==> BufferHolds(tiff.meta, tiff.buffer[..])
      requires LabelsEveryMask(connected)
      requires var a := Analyse(tiff.meta, tiff.buffer[..], measure, blacknessThresh, noiseThresh, floatScore, connected);
               a.Masks? && ExtraChannels.InjectStatus(tiff.meta, a.noNoise, a.whiteInk, a.whiteInk) == 0 ==>
                 ExtraChannels.ReadsInside(tiff.meta, tiff.buffer.Length)
      modifies tiff
      ensures tiff == old(tiff)
      ensures status == PipelineStatus(old(tiff.meta), old(tiff.buffer[..]), measure, blacknessThresh, noiseThresh,
                                       floatScore, connected, ps, fileOpened, rowWriteFails)
      ensures var a := Analyse(old(tiff.meta), old(tiff.buffer[..]), measure, blacknessThresh, noiseThresh, floatScore, connected);
              if a.Masks? && ExtraChannels.InjectStatus(old(tiff.meta), a.noNoise, a.whiteInk, a.whiteInk) == 0 then
                Injected(tiff.meta, tiff.buffer[..]) == Inject(old(tiff.meta), old(tiff.buffer[..]), a.noNoise, a.whiteInk)
              else
                tiff.meta == old(tiff.meta) && tiff.buffer == old(tiff.buffer) && tiff.buffer[..] == old(tiff.buffer[..])
      ensures tiff.bytesPerRow == old(tiff.bytesPerRow)
    {
      ghost var meta, buf := tiff.meta, tiff.buffer[..];
      ghost var a := Analyse(meta, buf, measure, blacknessThresh, noiseThresh, floatScore, connected);
      var res, rgbImg := GenerateRgbMat(tiff, NO_MAT);
      if res != 0 {
        return res;
      }
      var blackness;
      res, blackness := CalcBlackness(rgbImg, measure, floatScore, NO_MAT);
      if res != 0 {
        return res;
      }
      // The source returns -1 here for an empty display image; a converted
      // image is never empty.
      assert !rgbImg.Empty();
      var noBlack;
      res, noBlack := RemoveBlack(blackness, blacknessThresh, NO_MAT);
      if res != 0 {
        return res;
      }
      var noNoise;
      res, noNoise := RemoveSmallComponents(noBlack, noiseThresh, connected(noBlack), NO_MAT);
      if res != 0 {
        return res;
      }
      var whiteCompensation;
      res, whiteCompensation := GenerateWhiteCompensation(blackness, noNoise, blacknessThresh, NO_MAT);
      if res != 0 {
        return res;
      }
      var whiteInk := Complement(whiteCompensation);
      assert a == Masks(noNoise, whiteInk);
      res := ExtraChannels.UpdateExtraChannels(tiff, noNoise, whiteInk, whiteInk);
      if res != 0 {
        return res;
      }
      status := WriteStatus(tiff.meta, tiff.buffer.Length, ps, fileOpened, rowWriteFails);
    }
  }
}
