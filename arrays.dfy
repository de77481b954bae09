/** The numpy side of the exchange, which the model does not look inside:
    the array value, numpy's `np.save`/`np.load` pair on an in-memory buffer,
    and the object detector imported from B1_detect. */
module Arrays {
  import opened Bytes
  import opened Wrappers

  /** A numpy array: element type, shape and row-major raw data. */
  datatype NdArray = NdArray(dtype: string, shape: seq<nat>, data: seq<byte>)

  /** `np.save` into a `BytesIO` and `np.load(..., allow_pickle=True)` from
      one; `load` is None where numpy raises. */
  datatype ArrayCodec = ArrayCodec(save: NdArray -> seq<byte>, load: seq<byte> -> Option<NdArray>)

  /** What the end-to-end properties rely on from numpy's format: loading
      what was saved gives the array back, and a saved array always has the
      format's preamble, so it is never empty. */
  ghost predicate Faithful(codec: ArrayCodec)
  {
    forall a :: |codec.save(a)| > 0 && codec.load(codec.save(a)) == Some(a)
  }

  /** `detect(image, confidence threshold, overlap threshold)`: one array of
      detections per image, or None where the detector raises. */
  type Detector = (NdArray, real, real) -> Option<seq<NdArray>>
}
