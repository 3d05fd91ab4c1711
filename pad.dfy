/**
 * Right padding of an image tensor to a fixed (channels, height, width)
 * shape, filling the columns past the image with copies of its last
 * column. Tensors are three-dimensional arrays indexed
 * [channel, row, column]; pixel values are opaque.
 */
module Pad {
  import opened Wrappers

  /** A tensor shape (channels, height, width). */
  datatype Shape = Shape(channels: nat, height: nat, width: nat)

  /** The padding transform, configured with the shape of every tensor it produces. */
  datatype NormalizePad = NormalizePad(maxSize: Shape)
  {
    /**
     * Pads `img` on the right: a zero-filled tensor of shape `maxSize`
     * receives the image in its first columns, and every column after the
     * image holds the image's last column.
     */
    method Apply<P>(img: array3<P>, zero: P) returns (r: Result<array3<P>, PadError>)
      ensures r.Success? <==> PadDefined(img.Length0, img.Length1, img.Length2, maxSize)
      ensures r.Failure? ==>
                (r.error == IndexOutOfRange <==>
                   img.Length2 == 0 && Broadcastable(img.Length0, maxSize.channels)
                   && Broadcastable(img.Length1, maxSize.height))
      ensures r.Success? ==>
                && fresh(r.value)
                && r.value.Length0 == maxSize.channels
                && r.value.Length1 == maxSize.height
                && r.value.Length2 == maxSize.width
      ensures r.Success? ==>
                forall i, j, k :: 0 <= i < r.value.Length0 && 0 <= j < r.value.Length1
                                  && 0 <= k < r.value.Length2 && k < img.Length2 ==>
                  r.value[i, j, k]
                  == img[BroadcastIndex(img.Length0, i), BroadcastIndex(img.Length1, j), k]
      ensures r.Success? ==>
                forall i, j, k :: 0 <= i < r.value.Length0 && 0 <= j < r.value.Length1
                                  && img.Length2 <= k < r.value.Length2 ==>
                  r.value[i, j, k]
                  == img[BroadcastIndex(img.Length0, i), BroadcastIndex(img.Length1, j), img.Length2 - 1]
    {
      var c, h, w := img.Length0, img.Length1, img.Length2;
      var m := maxSize;
      if !(Broadcastable(c, m.channels) && Broadcastable(h, m.height)
           && (w <= m.width || (w == 1 && m.width == 0))) {
        return Failure(ShapeMismatch);
      }
      var padded := new P[m.channels, m.height, m.width]((_, _, _) => zero);
      // copy the image, broadcast over channels and rows, into the first columns
      var n := if w < m.width then w else m.width;
      forall i, j, k | 0 <= i < m.channels && 0 <= j < m.height && 0 <= k < n {
        padded[i, j, k] := img[BroadcastIndex(c, i), BroadcastIndex(h, j), k];
      }
      if m.width != w {
        if w == 0 {
          return Failure(IndexOutOfRange);
        }
        // fill every column after the image with its last column
        forall i, j, k | 0 <= i < m.channels && 0 <= j < m.height && w <= k < m.width {
          padded[i, j, k] := img[BroadcastIndex(c, i), BroadcastIndex(h, j), w - 1];
        }
      }
      return Success(padded);
    }
  }

  datatype PadError =
    | ShapeMismatch    // the image cannot be broadcast into the padded tensor's slice
    | IndexOutOfRange  // an image with no columns has no last column to replicate

  /** A dimension of size `d` can be broadcast to size `target`: equal sizes, or a single entry. */
  predicate Broadcastable(d: nat, target: nat)
  {
    d == target || d == 1
  }

  /** The source index that broadcasting a dimension of size `d` reads for index `i`. */
  function BroadcastIndex(d: nat, i: nat): nat
  {
    if d == 1 then 0 else i
  }

  /**
   * Padding an image of shape (c, h, w) into `m` succeeds: channels and
   * rows broadcast, the image is no wider than the target (an image of
   * width 1 still broadcasts into a target of width 0), and an image with
   * no columns is only accepted by a target with none either.
   */
  predicate PadDefined(c: nat, h: nat, w: nat, m: Shape)
  {
    && Broadcastable(c, m.channels)
    && Broadcastable(h, m.height)
    && (w <= m.width || (w == 1 && m.width == 0))
    && (w == 0 ==> m.width == 0)
  }
}
