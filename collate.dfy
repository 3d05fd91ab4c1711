/**
 * Batch collation for the recognizer: drops missing samples, and either
 * plans an aspect-ratio-preserving resize to the fixed height followed by
 * right padding to the fixed width, or a plain resize to the fixed size.
 * The resize itself belongs to the image library and is not modelled: the
 * collated batch records, per image, the size it is resized to.
 */
module Collate {
  import opened Wrappers
  import opened Pad

  /** The image modes the collator distinguishes; any other mode carries its band count. */
  datatype Mode = L | RGB | OtherMode(bands: nat)

  /** An image as the collator sees it: its size and mode. */
  datatype Image = Image(width: nat, height: nat, mode: Mode)

  /** One dataset item: an image and its text. */
  datatype Sample = Sample(image: Image, text: string)

  /** A (width, height) pair, as the image library's resize takes it. */
  datatype Size = Size(width: int, height: int)

  /** The collator's configuration: target height and width, and whether to keep the aspect ratio. */
  datatype AlignCollate = AlignCollate(imgH: nat, imgW: nat, keepRatioWithPad: bool)

  /**
   * A collated batch: the padding transform (only when the aspect ratio is
   * kept), the size each image is resized to, and the labels, one per image.
   */
  datatype Collated = Collated(transform: Option<NormalizePad>, sizes: seq<Size>, labels: seq<string>)

  datatype CollateError =
    | EmptyBatch               // nothing is left to unpack once missing samples are dropped
    | ZeroHeight(at: nat)      // the width/height ratio of the `at`-th image divides by zero
    | PadFailed(at: nat)       // the padding transform rejects the `at`-th resized image
    | ChannelMismatch(at: nat) // the `at`-th tensor has other channels than the first, so the batch cannot be stacked

  /** The number of channels of the tensor an image of mode `m` becomes. */
  function Bands(m: Mode): nat
  {
    match m
    case L => 1
    case RGB => 3
    case OtherMode(b) => b
  }

  /** The channel count the collator pads to, decided from one image's mode. */
  function InputChannels(m: Mode): nat
  {
    if m == RGB then 3 else 1
  }

  /** The present samples of a batch, in batch order. */
  function Present(batch: seq<Option<Sample>>): (r: seq<Sample>)
    ensures |r| <= |batch|
    ensures forall s :: s in r <==> Some(s) in batch
  {
    if batch == [] then []
    else
      var rest := Present(batch[1..]);
      assert forall s :: Some(s) in batch <==> Some(s) == batch[0] || Some(s) in batch[1..];
      match batch[0]
      case None => rest
      case Some(s) => [s] + rest
  }

  /** Filtering distributes over concatenation, so batch order is kept. */
  lemma {:induction false} PresentAppend(a: seq<Option<Sample>>, b: seq<Option<Sample>>)
    ensures Present(a + b) == Present(a) + Present(b)
  {
    if a != [] {
      assert (a + b)[1..] == a[1..] + b;
      PresentAppend(a[1..], b);
    } else {
      assert a + b == b;
    }
  }

  /** The filter keeps a present sample and drops a missing one. */
  lemma PresentSingle(x: Option<Sample>)
    ensures Present([x]) == if x.Some? then [x.value] else []
  {
    assert [x][1..] == [];
  }

  /** Ceiling of `a / b` for a positive `b`. */
  function CeilDiv(a: int, b: int): (q: int)
    requires b > 0
    ensures (q - 1) * b < a <= q * b
  {
    var f := (-a) / b;
    assert -a == b * f + (-a) % b;
    -f
  }

  /**
   * The width an image of size w x h is resized to so that its height
   * becomes `imgH`: the width that keeps the aspect ratio, rounded up,
   * but no more than `imgW`.
   */
  function ResizedWidth(imgH: nat, imgW: nat, w: nat, h: nat): (r: int)
    requires h > 0
    ensures r <= imgW
    ensures (r - 1) * h < imgH * w
    ensures r == imgW || imgH * w <= r * h
  {
    var c := CeilDiv(imgH * w, h);
    if c > imgW then imgW else c
  }

  /** The resized width is a whole column or more for any real image and target. */
  lemma ResizedWidthPositive(imgH: nat, imgW: nat, w: nat, h: nat)
    requires h > 0 && imgH >= 1 && imgW >= 1 && w >= 1
    ensures 1 <= ResizedWidth(imgH, imgW, w, h) <= imgW
  {
  }

  /** The padding transform the collator builds from the batch's first image. */
  function PadTransform(cfg: AlignCollate, first: Image): NormalizePad
  {
    NormalizePad(Shape(InputChannels(first.mode), cfg.imgH, cfg.imgW))
  }

  /**
   * With the aspect ratio kept, `img` can be resized and then padded by the
   * transform built from `first`: its ratio is defined, and the resized
   * tensor (its mode's channels, imgH rows, the resized width) fits the
   * transform's shape.
   */
  predicate Paddable(cfg: AlignCollate, first: Image, img: Image)
  {
    && img.height > 0
    && PadDefined(Bands(img.mode), cfg.imgH, ResizedWidth(cfg.imgH, cfg.imgW, img.width, img.height),
                  PadTransform(cfg, first).maxSize)
  }

  /**
   * Collates a batch: missing samples are dropped, the rest keep their
   * order and give one label each. With the aspect ratio kept, each image
   * gets a resize size and is padded by the transform built from the first
   * image; the first image whose ratio is undefined or whose resized tensor
   * the transform rejects fails the batch. Without it, each image is
   * resized to the fixed size, and the first tensor whose channel count
   * differs from the first one's fails the stacking.
   */
  method Collate(cfg: AlignCollate, batch: seq<Option<Sample>>) returns (r: Result<Collated, CollateError>)
    ensures var present := Present(batch);
            r.Failure? <==>
              || |present| == 0
              || (cfg.keepRatioWithPad
                  && exists i :: 0 <= i < |present| && !Paddable(cfg, present[0].image, present[i].image))
              || (!cfg.keepRatioWithPad
                  && exists i :: 0 <= i < |present| && Bands(present[i].image.mode) != Bands(present[0].image.mode))
    ensures r.Failure? ==> (r.error == EmptyBatch <==> |Present(batch)| == 0)
    ensures var present := Present(batch);
            r.Failure? && (r.error.ZeroHeight? || r.error.PadFailed?) ==>
              && cfg.keepRatioWithPad
              && r.error.at < |present|
              && !Paddable(cfg, present[0].image, present[r.error.at].image)
              && (r.error.ZeroHeight? <==> present[r.error.at].image.height == 0)
              && forall i :: 0 <= i < r.error.at ==> Paddable(cfg, present[0].image, present[i].image)
    ensures var present := Present(batch);
            r.Failure? && r.error.ChannelMismatch? ==>
              && !cfg.keepRatioWithPad
              && 0 < r.error.at < |present|
              && Bands(present[r.error.at].image.mode) != Bands(present[0].image.mode)
              && forall i :: 0 <= i < r.error.at ==> Bands(present[i].image.mode) == Bands(present[0].image.mode)
    ensures var present := Present(batch);
            r.Success? ==>
              && |r.value.labels| == |present| == |r.value.sizes|
              && forall i :: 0 <= i < |present| ==> r.value.labels[i] == present[i].text
    ensures var present := Present(batch);
            r.Success? && cfg.keepRatioWithPad ==>
              && r.value.transform == Some(PadTransform(cfg, present[0].image))
              && forall i :: 0 <= i < |present| ==>
                   && Paddable(cfg, present[0].image, present[i].image)
                   && r.value.sizes[i]
                      == Size(ResizedWidth(cfg.imgH, cfg.imgW, present[i].image.width, present[i].image.height),
                              cfg.imgH)
    ensures var present := Present(batch);
            r.Success? && !cfg.keepRatioWithPad ==>
              && r.value.transform == None
              && forall i :: 0 <= i < |present| ==>
                   && Bands(present[i].image.mode) == Bands(present[0].image.mode)
                   && r.value.sizes[i] == Size(cfg.imgW, cfg.imgH)
  {
    var samples := Present(batch);
    if |samples| == 0 {
      return Failure(EmptyBatch);
    }
    var labels := seq(|samples|, i requires 0 <= i < |samples| => samples[i].text);
    if cfg.keepRatioWithPad {
      var sizes := ResizeAndPad(cfg, samples);
      if sizes.Failure? {
        return Failure(sizes.error);
      }
      return Success(Collated(Some(PadTransform(cfg, samples[0].image)), sizes.value, labels));
    } else {
      var mismatch := FirstChannelMismatch(samples);
      if mismatch.Some? {
        return Failure(ChannelMismatch(mismatch.value));
      }
      var sizes := seq(|samples|, _ => Size(cfg.imgW, cfg.imgH));
      return Success(Collated(None, sizes, labels));
    }
  }

  /**
   * The keep-ratio loop over the present samples: each image's resize size
   * in order, or the first image whose ratio is undefined (height 0) or
   * whose resized tensor the transform built from the first image rejects.
   */
  method ResizeAndPad(cfg: AlignCollate, samples: seq<Sample>) returns (r: Result<seq<Size>, CollateError>)
    requires |samples| > 0
    ensures r.Failure? <==> exists i :: 0 <= i < |samples| && !Paddable(cfg, samples[0].image, samples[i].image)
    ensures r.Failure? ==>
              && (r.error.ZeroHeight? || r.error.PadFailed?)
              && r.error.at < |samples|
              && !Paddable(cfg, samples[0].image, samples[r.error.at].image)
              && (r.error.ZeroHeight? <==> samples[r.error.at].image.height == 0)
              && forall i :: 0 <= i < r.error.at ==> Paddable(cfg, samples[0].image, samples[i].image)
    ensures r.Success? ==>
              && |r.value| == |samples|
              && forall i :: 0 <= i < |samples| ==>
                   && Paddable(cfg, samples[0].image, samples[i].image)
                   && r.value[i]
                      == Size(ResizedWidth(cfg.imgH, cfg.imgW, samples[i].image.width, samples[i].image.height),
                              cfg.imgH)
  {
    var first := samples[0].image;
    var transform := PadTransform(cfg, first);
    var sizes: seq<Size> := [];
    var i := 0;
    while i < |samples|
      invariant 0 <= i <= |samples|
      invariant |sizes| == i
      invariant forall k :: 0 <= k < i ==>
                  && Paddable(cfg, first, samples[k].image)
                  && sizes[k]
                     == Size(ResizedWidth(cfg.imgH, cfg.imgW, samples[k].image.width, samples[k].image.height),
                             cfg.imgH)
    {
      var w, h := samples[i].image.width, samples[i].image.height;
      if h == 0 {
        return Failure(ZeroHeight(i));
      }
      var resizedW;
      if CeilDiv(cfg.imgH * w, h) > cfg.imgW {
        resizedW := cfg.imgW;
      } else {
        resizedW := CeilDiv(cfg.imgH * w, h);
      }
      if !PadDefined(Bands(samples[i].image.mode), cfg.imgH, resizedW, transform.maxSize) {
        return Failure(PadFailed(i));
      }
      sizes := sizes + [Size(resizedW, cfg.imgH)];
      i := i + 1;
    }
    return Success(sizes);
  }

  /**
   * The shape check of stacking the fixed-size tensors: every tensor is
   * (its mode's channels, imgH, imgW), so the first tensor whose channel
   * count differs from the first one's, if any, is where stacking fails.
   */
  method FirstChannelMismatch(samples: seq<Sample>) returns (r: Option<nat>)
    requires |samples| > 0
    ensures r.None? <==> forall i :: 0 <= i < |samples| ==> Bands(samples[i].image.mode) == Bands(samples[0].image.mode)
    ensures r.Some? ==>
              && 0 < r.value < |samples|
              && Bands(samples[r.value].image.mode) != Bands(samples[0].image.mode)
              && forall i :: 0 <= i < r.value ==> Bands(samples[i].image.mode) == Bands(samples[0].image.mode)
  {
    var first := samples[0].image;
    var i := 1;
    while i < |samples|
      invariant 1 <= i <= |samples|
      invariant forall k :: 0 <= k < i ==> Bands(samples[k].image.mode) == Bands(first.mode)
    {
      if Bands(samples[i].image.mode) != Bands(first.mode) {
        return Some(i);
      }
      i := i + 1;
    }
    return None;
  }

  /**
   * An image the collator resizes (with the aspect ratio kept) to `size`
   * can be padded by the transform built from the batch's `first` image,
   * border fill included, provided it is at least one column wide and its
   * tensor's channels broadcast to those of the first image: an RGB image
   * after a grayscale first image cannot, a grayscale one after an RGB
   * first image is copied into all three channels.
   */
  lemma CollatedImagesPad(cfg: AlignCollate, first: Image, img: Image, size: Size)
    requires cfg.imgH >= 1 && cfg.imgW >= 1 && img.width >= 1 && img.height >= 1
    requires size == Size(ResizedWidth(cfg.imgH, cfg.imgW, img.width, img.height), cfg.imgH)
    ensures var m := PadTransform(cfg, first).maxSize;
            && 1 <= size.width <= m.width
            && (PadDefined(Bands(img.mode), size.height, size.width, m)
                <==> Broadcastable(Bands(img.mode), m.channels))
            && (Paddable(cfg, first, img) <==> Broadcastable(Bands(img.mode), m.channels))
  {
    ResizedWidthPositive(cfg.imgH, cfg.imgW, img.width, img.height);
  }

  /**
   * The first image of a batch fits the transform built from it exactly
   * when it is RGB or has a single band: any other mode is padded to one
   * channel, which its tensor cannot broadcast into.
   */
  lemma FirstImageFitsTransform(cfg: AlignCollate, first: Image)
    requires cfg.imgH >= 1 && cfg.imgW >= 1 && first.width >= 1 && first.height >= 1
    ensures Paddable(cfg, first, first) <==> (first.mode == RGB || Bands(first.mode) == 1)
  {
    ResizedWidthPositive(cfg.imgH, cfg.imgW, first.width, first.height);
  }

  /**
   * The padding transform follows the first image's mode: a grayscale
   * image after a grayscale first one pads, an RGB image after it does not,
   * a grayscale image after an RGB first one is copied into all three
   * channels, and a four-band first image is rejected by its own transform.
   */
  lemma ModeDecidesPadding()
    ensures var cfg := AlignCollate(32, 100, true);
            && Paddable(cfg, Image(10, 10, L), Image(10, 10, L))
            && !Paddable(cfg, Image(10, 10, L), Image(10, 10, RGB))
            && Paddable(cfg, Image(10, 10, RGB), Image(10, 10, L))
            && !Paddable(cfg, Image(10, 10, OtherMode(4)), Image(10, 10, OtherMode(4)))
  {
    assert ResizedWidth(32, 100, 10, 10) == 32;
  }
}
