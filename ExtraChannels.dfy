/** The channel injector of tiffprocess.cpp (updateExtraChannels): it rebuilds
    the interleaved pixel buffer of an 8-bit contiguous RGB or CMYK image so
    that every pixel carries its colour samples, an alpha sample, its other
    extra samples and two new spot samples, and replaces the image's
    ExtraSamples list, sample count and buffer. */
module ExtraChannels {
  import opened Bytes
  import opened CvMat
  import opened TiffImage
  import TiffProcess

  /** static_cast<int> of a uint32_t: values from 2^31 on wrap to negatives. */
  function AsInt32(v: U32): (r: int)
    ensures v < 0x8000_0000 ==> r == v
    ensures v >= 0x8000_0000 ==> r < 0 && r == v - 0x1_0000_0000
  {
    if v < 0x8000_0000 then v else v - 0x1_0000_0000
  }

  /** The colour channels the injector accepts: 3 for RGB, 4 for CMYK, and -1
      (rejected) for anything else. */
  function ColorChannels(meta: TiffMeta): (cc: int)
    ensures cc == -1 <==> meta.photometric != PHOTOMETRIC_RGB && meta.photometric != PHOTOMETRIC_SEPARATED
    ensures cc != -1 ==> cc == meta.BaseColorSamples()
  {
    if meta.photometric == PHOTOMETRIC_RGB then 3
    else if meta.photometric == PHOTOMETRIC_SEPARATED then 4
    else -1
  }

  /** The status updateExtraChannels returns, checks in the source's order. */
  function InjectStatus(meta: TiffMeta, alpha: Mat, extra1: Mat, extra2: Mat): (r: int)
    ensures r == -1 <==> meta.bitsPerSample != 8 || meta.planarConfig != PLANARCONFIG_CONTIG
    ensures r == -2 ==> alpha.Empty() || extra1.Empty() || extra2.Empty()
    ensures r == -3 ==> alpha.kind != U8C1 || extra1.kind != U8C1 || extra2.kind != U8C1
    ensures r == -5 ==> ColorChannels(meta) == -1
    ensures r == 0 <==>
      meta.bitsPerSample == 8 && meta.planarConfig == PLANARCONFIG_CONTIG &&
      !alpha.Empty() && !extra1.Empty() && !extra2.Empty() &&
      alpha.kind == U8C1 && extra1.kind == U8C1 && extra2.kind == U8C1 &&
      meta.width < 0x8000_0000 && meta.height < 0x8000_0000 &&
      alpha.cols == meta.width && alpha.rows == meta.height &&
      extra1.SameSize(alpha) && extra2.SameSize(alpha) &&
      ColorChannels(meta) != -1
  {
    if meta.bitsPerSample != 8 || meta.planarConfig != PLANARCONFIG_CONTIG then -1
    else if alpha.Empty() || extra1.Empty() || extra2.Empty() then -2
    else if alpha.kind != U8C1 || extra1.kind != U8C1 || extra2.kind != U8C1 then -3
    else if alpha.cols != AsInt32(meta.width) || alpha.rows != AsInt32(meta.height) ||
            !extra1.SameSize(alpha) || !extra2.SameSize(alpha) then -4
    else if ColorChannels(meta) == -1 then -5
    else 0
  }

  /** The new ExtraSamples list: the old one when it has an alpha, else an
      unassociated alpha in front of it; then two unspecified spot channels. */
  function NewExtraSamples(meta: TiffMeta): seq<U16>
  {
    var front := if FindAlphaExtraIndex(meta) >= 0 then meta.extraSamples
                 else [EXTRASAMPLE_UNASSALPHA] + meta.extraSamples;
    front + [EXTRASAMPLE_UNSPECIFIED, EXTRASAMPLE_UNSPECIFIED]
  }

  /** The new sample count: colour channels plus the new extra samples. */
  function NewSpp(meta: TiffMeta): int
  {
    ColorChannels(meta) + |NewExtraSamples(meta)|
  }

  /** The new list always declares an alpha, ends in the two spot channels,
      and keeps the old list in order (after the inserted alpha, if any). */
  lemma NewExtraSamplesShape(meta: TiffMeta)
    ensures var r, old_, k := NewExtraSamples(meta), meta.extraSamples, FindAlphaExtraIndex(meta);
            |r| == |old_| + (if k >= 0 then 2 else 3) &&
            r[|r| - 2] == r[|r| - 1] == EXTRASAMPLE_UNSPECIFIED &&
            (if k >= 0 then r[..|old_|] == old_ else r[0] == EXTRASAMPLE_UNASSALPHA && r[1..|old_| + 1] == old_)
    ensures meta.(extraSamples := NewExtraSamples(meta)).HasAlpha()
  {
    var r, k := NewExtraSamples(meta), FindAlphaExtraIndex(meta);
    if k >= 0 {
      assert IsAlphaSample(r[k]);
    } else {
      assert IsAlphaSample(r[0]);
    }
  }

  /** Which old extra sample the j-th copied extra sample comes from: the old
      alpha, at extra index k, is skipped. */
  function KeptExtra(j: nat, k: int): nat
  {
    if 0 <= k <= j then j + 1 else j
  }

  /** The old buffer is long enough for every read the copy loop makes: the
      last pixel's colour samples and extra samples. */
  predicate ReadsInside(meta: TiffMeta, bufLen: nat)
  {
    var n := meta.width * meta.height;
    n == 0 || (n - 1) * meta.samplesPerPixel + ColorChannels(meta) + |meta.extraSamples| <= bufLen
  }

  /** Byte k of s, or 0 past its end.  The rebuild only runs on buffers and
      masks that hold every byte it reads, so the default never shows in its
      output. */
  function At(s: seq<Byte>, k: int): Byte
  {
    if 0 <= k < |s| then s[k] else 0
  }

  /** Sample c of a rebuilt pixel of ne samples whose old samples start at o
      in buf: the cc colour samples, then the mask byte a, then the old extra
      samples without the one at k, then the spot bytes spot1 and spot2. */
  function SampleOf(buf: seq<Byte>, o: int, cc: int, ne: int, k: int, a: Byte, spot1: Byte, spot2: Byte, c: nat): Byte
  {
    if c < cc then At(buf, o + c)
    else if c == cc then a
    else if c < ne - 2 then At(buf, o + cc + KeptExtra(c - cc - 1, k))
    else if c == ne - 2 then spot1
    else spot2
  }

  /** Sample c of pixel i in the rebuilt buffer. */
  function InjectedSample(meta: TiffMeta, buf: seq<Byte>, alpha: Mat, extra1: Mat, extra2: Mat, i: nat, c: nat): Byte
  {
    SampleOf(buf, i * meta.samplesPerPixel, ColorChannels(meta), NewSpp(meta), FindAlphaExtraIndex(meta),
             At(alpha.data, i), At(extra1.data, i), At(extra2.data, i), c)
  }

  /** n blocks of w bytes each, byte c of block i being f(i, c): the layout
      of an interleaved pixel buffer. */
  function Blocks(n: nat, w: nat, f: (nat, nat) -> Byte): (r: seq<Byte>)
    requires 0 < w
    ensures |r| == n * w
  {
    seq<Byte>(n * w, m requires 0 <= m < n * w => f(m / w, m % w))
  }

  lemma DivModOfBlock(i: nat, c: nat, w: nat)
    requires c < w
    ensures (i * w + c) / w == i && (i * w + c) % w == c
  {
    var q, r := (i * w + c) / w, (i * w + c) % w;
    assert i * w + c == q * w + r;
    if q < i {
      TiffProcess.MulLeft(q + 1, i, w);
      assert false;
    }
    if q > i {
      TiffProcess.MulLeft(i + 1, q, w);
      assert false;
    }
  }

  /** Block i of Blocks(n, w, f) sits at i * w and holds f(i, 0), ..., f(i, w - 1). */
  lemma BlocksAt(n: nat, w: nat, f: (nat, nat) -> Byte, i: nat)
    requires 0 < w && i < n
    ensures i * w + w <= n * w
    ensures forall m :: i * w <= m < i * w + w ==> Blocks(n, w, f)[m] == f(i, m - i * w)
  {
    TiffProcess.MulLeft(i + 1, n, w);
    forall m | i * w <= m < i * w + w
      ensures Blocks(n, w, f)[m] == f(i, m - i * w)
    {
      DivModOfBlock(i, m - i * w, w);
    }
  }

  /** Block i of Blocks(n, w, f), as a whole, is any r that agrees with f(i, _). */
  lemma BlockSlice(n: nat, w: nat, f: (nat, nat) -> Byte, i: nat, r: seq<Byte>)
    requires 0 < w && i < n && |r| == w
    requires forall c :: 0 <= c < w ==> f(i, c) == r[c]
    ensures i * w + w <= n * w && Blocks(n, w, f)[i * w .. i * w + w] == r
  {
    BlocksAt(n, w, f, i);
    var b := Blocks(n, w, f)[i * w .. i * w + w];
    forall c | 0 <= c < w
      ensures b[c] == r[c]
    {
      assert b[c] == Blocks(n, w, f)[i * w + c];
    }
  }

  /** InjectedSample as a function of the pixel and the sample. */
  function Sampler(meta: TiffMeta, buf: seq<Byte>, alpha: Mat, extra1: Mat, extra2: Mat): (nat, nat) -> Byte
  {
    (i, c) => InjectedSample(meta, buf, alpha, extra1, extra2, i, c)
  }

  /** The rebuilt buffer: NewSpp samples for each of the width * height
      pixels, pixel after pixel. */
  function InjectedBuffer(meta: TiffMeta, buf: seq<Byte>, alpha: Mat, extra1: Mat, extra2: Mat): (r: seq<Byte>)
    requires ColorChannels(meta) != -1
    ensures |r| == meta.width * meta.height * NewSpp(meta)
  {
    Blocks(meta.width * meta.height, NewSpp(meta), Sampler(meta, buf, alpha, extra1, extra2))
  }

  /** The samples of pixel i sit at i * NewSpp onwards. */
  lemma InjectedBufferAt(meta: TiffMeta, buf: seq<Byte>, alpha: Mat, extra1: Mat, extra2: Mat, i: nat)
    requires ColorChannels(meta) != -1
    requires i < meta.width * meta.height
    ensures var ne, img := NewSpp(meta), InjectedBuffer(meta, buf, alpha, extra1, extra2);
            i * ne + ne <= |img| &&
            forall m :: i * ne <= m < i * ne + ne ==> img[m] == InjectedSample(meta, buf, alpha, extra1, extra2, i, m - i * ne)
  {
    BlocksAt(meta.width * meta.height, NewSpp(meta), Sampler(meta, buf, alpha, extra1, extra2), i);
  }

  /** The inputs the rebuild runs on: RGB or CMYK, one mask byte per pixel in
      each mask, and a buffer the copy loop stays inside. */
  predicate Ready(meta: TiffMeta, buf: seq<Byte>, alpha: Mat, extra1: Mat, extra2: Mat)
  {
    var n := meta.width * meta.height;
    ColorChannels(meta) != -1 && |alpha.data| == n && |extra1.data| == n && |extra2.data| == n &&
    ReadsInside(meta, |buf|)
  }

  /** Inputs every check accepts are ready for the rebuild, once the buffer
      covers the copy loop's reads. */
  lemma AcceptedIsReady(meta: TiffMeta, buf: seq<Byte>, alpha: Mat, extra1: Mat, extra2: Mat)
    requires alpha.Valid() && extra1.Valid() && extra2.Valid()
    requires InjectStatus(meta, alpha, extra1, extra2) == 0 && ReadsInside(meta, |buf|)
    ensures Ready(meta, buf, alpha, extra1, extra2)
  {
    assert |alpha.data| == meta.height * meta.width;
  }

  /** Every byte pixel i of the copy loop reads lies inside its buffer or
      mask, and its NewSpp written bytes lie inside the new buffer. */
  lemma PixelInside(meta: TiffMeta, buf: seq<Byte>, alpha: Mat, extra1: Mat, extra2: Mat, i: nat)
    requires Ready(meta, buf, alpha, extra1, extra2)
    requires i < meta.width * meta.height
    ensures i * meta.samplesPerPixel + ColorChannels(meta) + |meta.extraSamples| <= |buf|
    ensures i < |alpha.data| && i < |extra1.data| && i < |extra2.data|
  {
    TiffProcess.MulLeft(i, meta.width * meta.height - 1, meta.samplesPerPixel);
  }

  /** s without its element at k (k < 0: nothing removed). */
  function RemoveAt<T>(s: seq<T>, k: int): (r: seq<T>)
    requires k < |s|
    ensures |r| == if k < 0 then |s| else |s| - 1
  {
    if k < 0 then s else s[..k] + s[k + 1..]
  }

  /** A rebuilt pixel, as a whole: its colour samples, the mask byte a, its
      extra samples without the one at k, and the two spot bytes. */
  function Record(colour: seq<Byte>, a: Byte, extras: seq<Byte>, k: int, spot1: Byte, spot2: Byte): (r: seq<Byte>)
    requires k < |extras|
    ensures |r| == |colour| + |extras| + (if k < 0 then 3 else 2)
  {
    colour + [a] + RemoveAt(extras, k) + [spot1, spot2]
  }

  /** Sample c of a record, by the part it falls in. */
  lemma RecordAt(colour: seq<Byte>, a: Byte, extras: seq<Byte>, k: int, spot1: Byte, spot2: Byte, c: nat)
    requires k < |extras|
    requires c < |Record(colour, a, extras, k, spot1, spot2)|
    ensures var r, cc := Record(colour, a, extras, k, spot1, spot2), |colour|;
            var kept := |extras| - (if k < 0 then 0 else 1);
            r[c] == (if c < cc then colour[c]
                     else if c == cc then a
                     else if c < cc + 1 + kept then extras[KeptExtra(c - cc - 1, k)]
                     else if c == cc + 1 + kept then spot1
                     else spot2)
  {
    var cc := |colour|;
    var kept := RemoveAt(extras, k);
    assert Record(colour, a, extras, k, spot1, spot2) == colour + [a] + kept + [spot1, spot2];
    if cc < c < cc + 1 + |kept| {
      var j := c - cc - 1;
      assert (colour + [a] + kept + [spot1, spot2])[c] == kept[j];
      if 0 <= k <= j {
        assert kept[j] == extras[k + 1..][j - k];
      }
    }
  }

  /** A record's samples, by position, are what SampleOf picks. */
  lemma SampleOfRecord(buf: seq<Byte>, o: nat, cc: nat, ex: nat, ne: int, k: int, a: Byte, spot1: Byte, spot2: Byte, c: nat)
    requires o + cc + ex <= |buf| && k < ex
    requires ne == cc + ex + (if k < 0 then 3 else 2) && c < ne
    ensures SampleOf(buf, o, cc, ne, k, a, spot1, spot2, c) == Record(buf[o .. o + cc], a, buf[o + cc .. o + cc + ex], k, spot1, spot2)[c]
  {
    var colour, extras := buf[o .. o + cc], buf[o + cc .. o + cc + ex];
    var r := Record(colour, a, extras, k, spot1, spot2);
    var s := SampleOf(buf, o, cc, ne, k, a, spot1, spot2, c);
    RecordAt(colour, a, extras, k, spot1, spot2, c);
    if c < cc {
      assert s == buf[o + c] == colour[c] == r[c];
    } else if c == cc {
      assert s == a == r[c];
    } else if c < ne - 2 {
      var j := KeptExtra(c - cc - 1, k);
      assert s == buf[o + cc + j] == extras[j] == r[c];
    } else if c == ne - 2 {
      assert s == spot1 == r[c];
    } else {
      assert s == spot2 == r[c];
    }
  }

  /** The new sample count: the colour and old extra samples, plus three
      (alpha and two spots) or, when an alpha was there, two. */
  lemma NewSppIs(meta: TiffMeta)
    ensures NewSpp(meta) == ColorChannels(meta) + |meta.extraSamples| + (if FindAlphaExtraIndex(meta) < 0 then 3 else 2)
  {
  }

  /** InjectedSample at pixel i is SampleOf at the pixel's offset o. */
  lemma InjectedSampleOf(meta: TiffMeta, buf: seq<Byte>, alpha: Mat, extra1: Mat, extra2: Mat, i: nat, o: nat, c: nat)
    requires o == i * meta.samplesPerPixel
    requires i < |alpha.data| && i < |extra1.data| && i < |extra2.data|
    ensures Sampler(meta, buf, alpha, extra1, extra2)(i, c) ==
            SampleOf(buf, o, ColorChannels(meta), NewSpp(meta), FindAlphaExtraIndex(meta),
                     alpha.data[i], extra1.data[i], extra2.data[i], c)
  {
  }

  /** Every sample of pixel i of the layout is SampleOf at the pixel's offset. */
  lemma PixelSamples(meta: TiffMeta, buf: seq<Byte>, alpha: Mat, extra1: Mat, extra2: Mat, i: nat, o: nat)
    requires o == i * meta.samplesPerPixel
    requires i < |alpha.data| && i < |extra1.data| && i < |extra2.data|
    ensures forall c: nat :: c < NewSpp(meta) ==>
              Sampler(meta, buf, alpha, extra1, extra2)(i, c) ==
              SampleOf(buf, o, ColorChannels(meta), NewSpp(meta), FindAlphaExtraIndex(meta),
                       alpha.data[i], extra1.data[i], extra2.data[i], c)
  {
    forall c: nat | c < NewSpp(meta)
      ensures Sampler(meta, buf, alpha, extra1, extra2)(i, c) ==
              SampleOf(buf, o, ColorChannels(meta), NewSpp(meta), FindAlphaExtraIndex(meta),
                       alpha.data[i], extra1.data[i], extra2.data[i], c)
    {
      InjectedSampleOf(meta, buf, alpha, extra1, extra2, i, o, c);
    }
  }

  /** Block i of a layout whose samples are SampleOf(buf, o, ...) is, as a
      whole, the record of colour samples, mask byte, kept extras and spots. */
  lemma BlockIsRecord(n: nat, w: nat, f: (nat, nat) -> Byte, i: nat,
                      buf: seq<Byte>, o: nat, cc: nat, ex: nat, k: int, a: Byte, spot1: Byte, spot2: Byte)
    requires i < n && o + cc + ex <= |buf| && k < ex
    requires w == cc + ex + (if k < 0 then 3 else 2)
    requires forall c: nat :: c < w ==> f(i, c) == SampleOf(buf, o, cc, w, k, a, spot1, spot2, c)
    ensures i * w + w <= n * w
    ensures Blocks(n, w, f)[i * w .. i * w + w] == Record(buf[o .. o + cc], a, buf[o + cc .. o + cc + ex], k, spot1, spot2)
  {
    var r := Record(buf[o .. o + cc], a, buf[o + cc .. o + cc + ex], k, spot1, spot2);
    forall c | 0 <= c < w
      ensures f(i, c) == r[c]
    {
      SampleOfRecord(buf, o, cc, ex, w, k, a, spot1, spot2, c);
    }
    BlockSlice(n, w, f, i, r);
  }

  /** Pixel i of the rebuilt buffer, as a whole: its colour samples verbatim,
      the alpha mask byte, its old extra samples in order with the old alpha
      removed, and the two spot bytes. */
  lemma InjectedBlock(meta: TiffMeta, buf: seq<Byte>, alpha: Mat, extra1: Mat, extra2: Mat, i: nat, o: nat)
    requires ColorChannels(meta) != -1 && i < meta.width * meta.height
    requires o + ColorChannels(meta) + |meta.extraSamples| <= |buf|
    requires i < |alpha.data| && i < |extra1.data| && i < |extra2.data|
    requires o == i * meta.samplesPerPixel
    ensures var ne, n := NewSpp(meta), meta.width * meta.height;
            i * ne + ne <= n * ne &&
            Blocks(n, ne, Sampler(meta, buf, alpha, extra1, extra2))[i * ne .. i * ne + ne] ==
              Record(buf[o .. o + ColorChannels(meta)], alpha.data[i],
                     buf[o + ColorChannels(meta) .. o + ColorChannels(meta) + |meta.extraSamples|],
                     FindAlphaExtraIndex(meta), extra1.data[i], extra2.data[i])
  {
    var n, ne, f := meta.width * meta.height, NewSpp(meta), Sampler(meta, buf, alpha, extra1, extra2);
    var cc, ex, k := ColorChannels(meta), |meta.extraSamples|, FindAlphaExtraIndex(meta);
    assert ne == cc + ex + (if k < 0 then 3 else 2) by { NewSppIs(meta); }
    PixelSamples(meta, buf, alpha, extra1, extra2, i, o);
    BlockIsRecord(n, ne, f, i, buf, o, cc, ex, k, alpha.data[i], extra1.data[i], extra2.data[i]);
  }

  /** Pixel i of the rebuilt buffer, read at its offset p = i * NewSpp: the
      record of pixel i's colour samples, mask byte, kept extras and spots. */
  lemma InjectedPixelLayout(meta: TiffMeta, buf: seq<Byte>, alpha: Mat, extra1: Mat, extra2: Mat, i: nat, o: nat, p: nat)
    requires Ready(meta, buf, alpha, extra1, extra2)
    requires i < meta.width * meta.height && o == i * meta.samplesPerPixel && p == i * NewSpp(meta)
    ensures var ne, img := NewSpp(meta), InjectedBuffer(meta, buf, alpha, extra1, extra2);
            var cc, ex := ColorChannels(meta), |meta.extraSamples|;
            p + ne <= |img| && o + cc + ex <= |buf| &&
            i < |alpha.data| && i < |extra1.data| && i < |extra2.data| &&
            img[p .. p + ne] ==
              Record(buf[o .. o + cc], alpha.data[i], buf[o + cc .. o + cc + ex], FindAlphaExtraIndex(meta),
                     extra1.data[i], extra2.data[i])
  {
    PixelInside(meta, buf, alpha, extra1, extra2, i);
    InjectedBlock(meta, buf, alpha, extra1, extra2, i, o);
  }

  /** The roles the samples of a rebuilt pixel actually carry: the mask in the
      first extra slot (with the old alpha's role, or unassociated alpha when
      there was none), the other old extras, the two spot channels. */
  function CarriedRoles(meta: TiffMeta): seq<U16>
  {
    var k := FindAlphaExtraIndex(meta);
    var alphaRole := if k >= 0 then meta.extraSamples[k] else EXTRASAMPLE_UNASSALPHA;
    [alphaRole] + RemoveAt(meta.extraSamples, k) + [EXTRASAMPLE_UNSPECIFIED, EXTRASAMPLE_UNSPECIFIED]
  }

  /** The declared ExtraSamples list describes the rebuilt samples exactly
      when there was no alpha or the alpha was the first extra sample.  With
      an alpha at extra index k > 0 the list keeps alpha at position k while
      the buffer moved the mask to the first extra slot, so the first slot is
      declared as a non-alpha role. */
  lemma RolesMatchIffAlphaFirst(meta: TiffMeta)
    ensures NewExtraSamples(meta) == CarriedRoles(meta) <==> FindAlphaExtraIndex(meta) <= 0
    ensures FindAlphaExtraIndex(meta) > 0 ==>
              !IsAlphaSample(NewExtraSamples(meta)[0]) && IsAlphaSample(CarriedRoles(meta)[0])
  {
    var k, ex := FindAlphaExtraIndex(meta), meta.extraSamples;
    if k == 0 {
      assert [ex[0]] + ex[1..] == ex;
    } else if k > 0 {
      assert NewExtraSamples(meta)[0] == ex[0];
      assert !IsAlphaSample(ex[0]);
    }
  }

  /** One pixel of the copy loop: colour samples, mask byte, kept extras, spot
      bytes, written at d from the samples at s; no other byte changes. */
  method InjectPixel(meta: TiffMeta, src: seq<Byte>, alpha: Mat, extra1: Mat, extra2: Mat,
                     dst: array<Byte>, i: nat, s: nat, d: nat)
    requires ColorChannels(meta) != -1
    requires s == i * meta.samplesPerPixel && s + ColorChannels(meta) + |meta.extraSamples| <= |src|
    requires i < |alpha.data| && i < |extra1.data| && i < |extra2.data|
    requires d + NewSpp(meta) <= dst.Length
    modifies dst
    ensures forall m :: d <= m < d + NewSpp(meta) ==> dst[m] == InjectedSample(meta, src, alpha, extra1, extra2, i, m - d)
    ensures forall m :: 0 <= m < dst.Length && !(d <= m < d + NewSpp(meta)) ==> dst[m] == old(dst[m])
  {
    var cc := ColorChannels(meta);
    var alphaExtraIdx := FindAlphaExtraIndex(meta);
    var hasAlpha := alphaExtraIdx >= 0;
    // the colour samples (memcpy)
    var c := 0;
    while c < cc
      invariant c <= cc
      invariant forall m :: d <= m < d + c ==> dst[m] == InjectedSample(meta, src, alpha, extra1, extra2, i, m - d)
      invariant forall m :: 0 <= m < dst.Length && !(d <= m < d + c) ==> dst[m] == old(dst[m])
    {
      dst[d + c] := src[s + c];
      c := c + 1;
    }
    // the mask, as the first extra sample
    dst[d + cc] := alpha.data[i];
    // the old extra samples, skipping the old alpha
    var dstIdx, srcIdx := cc + 1, cc;
    var e := 0;
    while e < |meta.extraSamples|
      invariant e <= |meta.extraSamples| && srcIdx == cc + e
      invariant dstIdx == cc + 1 + e - (if hasAlpha && e > alphaExtraIdx then 1 else 0)
      invariant forall m :: d <= m < d + dstIdx ==> dst[m] == InjectedSample(meta, src, alpha, extra1, extra2, i, m - d)
      invariant forall m :: 0 <= m < dst.Length && !(d <= m < d + dstIdx) ==> dst[m] == old(dst[m])
    {
      if hasAlpha && e == alphaExtraIdx {
        srcIdx := srcIdx + 1;
      } else {
        dst[d + dstIdx] := src[s + srcIdx];
        dstIdx := dstIdx + 1;
        srcIdx := srcIdx + 1;
      }
      e := e + 1;
    }
    // the two spot channels
    dst[d + dstIdx] := extra1.data[i];
    dstIdx := dstIdx + 1;
    dst[d + dstIdx] := extra2.data[i];
  }

  /** The copy loop of updateExtraChannels: a new zeroed buffer of
      width * height * NewSpp bytes, filled pixel by pixel with the source and
      destination cursors advancing by the old and the new sample count. */
  method RebuildBuffer(meta: TiffMeta, src: seq<Byte>, alpha: Mat, extra1: Mat, extra2: Mat) returns (dst: array<Byte>)
    requires Ready(meta, src, alpha, extra1, extra2)
    ensures fresh(dst) && dst[..] == InjectedBuffer(meta, src, alpha, extra1, extra2)
  {
    var oldSpp := meta.samplesPerPixel as nat;
    var newSpp := NewSpp(meta);
    var pixelCount := meta.width * meta.height;
    dst := new Byte[pixelCount * newSpp](_ => 0);
    ghost var img := InjectedBuffer(meta, src, alpha, extra1, extra2);
    var s, d := 0, 0;
    var i := 0;
    while i < pixelCount
      invariant i <= pixelCount && s == i * oldSpp && d == i * newSpp && d <= dst.Length == |img|
      invariant forall m :: 0 <= m < d ==> dst[m] == img[m]
    {
      PixelInside(meta, src, alpha, extra1, extra2, i);
      InjectedBufferAt(meta, src, alpha, extra1, extra2, i);
      InjectPixel(meta, src, alpha, extra1, extra2, dst, i, s, d);
      assert (i + 1) * oldSpp == s + oldSpp && (i + 1) * newSpp == d + newSpp;
      s := s + oldSpp;
      d := d + newSpp;
      i := i + 1;
    }
    assert d == dst.Length;
    assert dst[..] == img;
  }

  /** updateExtraChannels(image, alpha, extra1, extra2): the status, and on
      success the new ExtraSamples list, the new sample count (stored as a
      uint16_t) and a new buffer holding the rebuilt pixels.  Everything else
      of the image, its stale bytesPerRow included, stays as it was, and on
      any error the image is untouched. */
  method UpdateExtraChannels(image: TiffImage, alpha: Mat, extra1: Mat, extra2: Mat) returns (status: int)
    requires alpha.Valid() && extra1.Valid() && extra2.Valid()
    requires InjectStatus(image.meta, alpha, extra1, extra2) == 0 ==> ReadsInside(image.meta, image.buffer.Length)
    modifies image
    ensures status == InjectStatus(old(image.meta), alpha, extra1, extra2)
    ensures status == 0 ==>
      image.meta == old(image.meta).(extraSamples := NewExtraSamples(old(image.meta)),
                                     samplesPerPixel := NewSpp(old(image.meta)) % 0x1_0000)
    ensures status == 0 ==>
      fresh(image.buffer) &&
      image.buffer[..] == InjectedBuffer(old(image.meta), old(image.buffer[..]), alpha, extra1, extra2)
    ensures status != 0 ==> image.meta == old(image.meta) && image.buffer == old(image.buffer)
    ensures image.bytesPerRow == old(image.bytesPerRow)
  {
    var meta := image.meta;
    if meta.bitsPerSample != 8 || meta.planarConfig != PLANARCONFIG_CONTIG {
      return -1;
    }
    if alpha.Empty() || extra1.Empty() || extra2.Empty() {
      return -2;
    }
    if alpha.kind != U8C1 || extra1.kind != U8C1 || extra2.kind != U8C1 {
      return -3;
    }
    if alpha.cols != AsInt32(meta.width) || alpha.rows != AsInt32(meta.height) ||
       !extra1.SameSize(alpha) || !extra2.SameSize(alpha) {
      return -4;
    }
    var colorChannels := -1;
    if meta.photometric == PHOTOMETRIC_RGB {
      colorChannels := 3;
    } else if meta.photometric == PHOTOMETRIC_SEPARATED {
      colorChannels := 4;
    } else {
      return -5;
    }
    var alphaExtraIdx := FindAlphaExtraIndex(meta);
    var hasAlpha := alphaExtraIdx >= 0;
    var newExtraSamples: seq<U16>;
    if hasAlpha {
      newExtraSamples := meta.extraSamples;
    } else {
      newExtraSamples := [EXTRASAMPLE_UNASSALPHA] + meta.extraSamples;
    }
    newExtraSamples := newExtraSamples + [EXTRASAMPLE_UNSPECIFIED, EXTRASAMPLE_UNSPECIFIED];
    var newSpp := colorChannels + |newExtraSamples|;
    AcceptedIsReady(meta, image.buffer[..], alpha, extra1, extra2);
    var newBuffer := RebuildBuffer(meta, image.buffer[..], alpha, extra1, extra2);
    image.meta := meta.(extraSamples := newExtraSamples, samplesPerPixel := newSpp % 0x1_0000);
    image.buffer := newBuffer;
    return 0;
  }
}
