/**
 * The smooshed (SPS) Spectrum 512 image decompressor. It shares the run-length
 * loop of the compressed format but reads the header unsigned, and writes
 * through a DataView: output past the 31840-byte image throws.
 */
module Smooshed {
  import opened Results
  import opened Bits
  import opened Rle
  import opened SpectrumRle

  /** `IMAGE_WIDTH * IMAGE_HEIGHT / 2`: 320x199 pixels at four bits each. */
  const ImageBytes: nat := 31840

  /** `decompressImage(buffer)`: the decoded bytes at the front of a zeroed 31840-byte buffer. */
  function DecompressImage(src: seq<byte>): (r: Result<seq<byte>, JsError>)
    ensures r.Err? ==> r.error == RangeError
    ensures r.Ok? <==> Stream(Sps, src, 0).Ok? && |Stream(Sps, src, 0).value| <= ImageBytes
    ensures r.Ok? ==> |r.value| == ImageBytes
    ensures r.Ok? ==> var s := Stream(Sps, src, 0).value;
                      r.value[..|s|] == s && forall i :: |s| <= i < ImageBytes ==> r.value[i] == 0
  {
    var s :- Stream(Sps, src, 0);
    if |s| > ImageBytes then Err(RangeError)
    else
      var out := s + seq(ImageBytes - |s|, _ => 0);
      assert out[..|s|] == s;
      Ok(out)
  }

  /** An SPS-encoded image of exactly 31840 bytes decompresses to itself. */
  lemma ImageRoundTrip(ts: seq<Token>, rest: seq<byte>)
    requires AllEncodable(ts) && |rest| <= 1 && |Expand(ts)| == ImageBytes
    ensures DecompressImage(Encode(Sps, ts) + rest) == Ok(Expand(ts))
  {
    RoundTrip(Sps, ts, rest);
    assert Expand(ts) + seq(0, _ => 0) == Expand(ts);
  }

  /** A stream that decodes to more than the image holds throws rather than being cut short. */
  lemma Overflow(ts: seq<Token>, rest: seq<byte>)
    requires AllEncodable(ts) && |rest| <= 1 && |Expand(ts)| > ImageBytes
    ensures DecompressImage(Encode(Sps, ts) + rest) == Err(RangeError)
  {
    RoundTrip(Sps, ts, rest);
  }

  /** Header 0x02 repeats the next byte five times; header 0x81 copies the next two bytes. */
  lemma Example()
    ensures Stream(Sps, [0x02, 0x07, 0x81, 0x10, 0x20], 0) == Ok([0x07, 0x07, 0x07, 0x07, 0x07, 0x10, 0x20])
  {
    var ts := [Repeat(5, 0x07), Literal([0x10, 0x20])];
    assert Encode(Sps, ts[1..][1..]) == [] && Expand(ts[1..][1..]) == [];
    assert Encode(Sps, ts[1..]) == [0x81, 0x10, 0x20];
    assert Expand(ts[1..]) == [0x10, 0x20];
    assert Encode(Sps, ts) == [0x02, 0x07, 0x81, 0x10, 0x20];
    assert Run(5, 0x07) == [0x07, 0x07, 0x07, 0x07, 0x07];
    assert Expand(ts) == [0x07, 0x07, 0x07, 0x07, 0x07, 0x10, 0x20];
    RoundTrip(Sps, ts, []);
    assert Encode(Sps, ts) + [] == Encode(Sps, ts);
  }
}
