/** The Bad Apple animation: the run-length encoder that turns 128x64
    one-bit frames into (count, colour) byte pairs and lays the frames end
    to end behind an offset table (tools/badapple/process_badapple.py), and
    the firmware's decoder that expands one frame's pairs into the paged
    LCD frame buffer (App/app/bad_apple.c). */
module BadApple {
  import opened Common

  type Byte = n: nat | n < 256

  const Width: nat := 128
  const Height: nat := 64
  const FramePixels: nat := 8192      // BAD_APPLE_PIXELS, 128 * 64
  const MaxRun: nat := 255

  /* ---------------------------------------------------------------------
     Runs: the meaning of a compressed frame.
     --------------------------------------------------------------------- */

  /** The count and colour bytes of pair k. */
  function Count(data: seq<Byte>, k: nat): Byte
    requires 2 * k + 1 < |data|
  {
    data[2 * k]
  }

  function Colour(data: seq<Byte>, k: nat): Byte
    requires 2 * k + 1 < |data|
  {
    data[2 * k + 1]
  }

  /** One run: count pixels of one colour. */
  function Run(count: nat, colour: Byte): (r: seq<Byte>)
    ensures |r| == count && forall i :: 0 <= i < count ==> r[i] == colour
  {
    seq(count, _ => colour)
  }

  /** The pixels the first k pairs describe, in order. */
  function RunsOf(data: seq<Byte>, k: nat): seq<Byte>
    requires 2 * k <= |data|
  {
    if k == 0 then [] else RunsOf(data, k - 1) + Run(Count(data, k - 1), Colour(data, k - 1))
  }

  /** The pixels a whole compressed frame describes: every complete pair,
      a trailing odd byte ignored. */
  function Expand(data: seq<Byte>): seq<Byte>
  {
    RunsOf(data, |data| / 2)
  }

  /** Appending bytes leaves the runs of existing pairs alone. */
  lemma {:induction false} RunsOfExtend(data: seq<Byte>, more: seq<Byte>, k: nat)
    requires 2 * k <= |data|
    ensures RunsOf(data + more, k) == RunsOf(data, k)
  {
    if k > 0 {
      RunsOfExtend(data, more, k - 1);
      assert Count(data + more, k - 1) == Count(data, k - 1);
      assert Colour(data + more, k - 1) == Colour(data, k - 1);
    }
  }

  /** The runs of fewer pairs are a prefix of the runs of more. */
  lemma {:induction false} RunsOfPrefix(data: seq<Byte>, k: nat, m: nat)
    requires k <= m && 2 * m <= |data|
    ensures |RunsOf(data, k)| <= |RunsOf(data, m)|
    ensures RunsOf(data, k) == RunsOf(data, m)[..|RunsOf(data, k)|]
  {
    if k < m {
      RunsOfPrefix(data, k, m - 1);
    }
  }

  /** A pair with count 0 adds no pixels. */
  lemma EmptyPair(data: seq<Byte>, k: nat)
    requires 2 * k + 1 < |data| && Count(data, k) == 0
    ensures RunsOf(data, k + 1) == RunsOf(data, k)
  {
  }

  /* ---------------------------------------------------------------------
     The encoder: compress_frame_rle.
     --------------------------------------------------------------------- */

  /** iter_pixels: every non-zero image value is a 1. */
  function PixelValues(image: seq<nat>): (r: seq<Byte>)
    ensures |r| == |image|
    ensures forall i :: 0 <= i < |r| ==> (r[i] == 1 <==> image[i] != 0) && r[i] <= 1
  {
    seq(|image|, i requires 0 <= i < |image| => if image[i] != 0 then 1 else 0)
  }

  /** Every pair's count is 1 to 255. */
  predicate CountsInRange(data: seq<Byte>)
    requires |data| % 2 == 0
  {
    forall k :: 0 <= k < |data| / 2 ==> 1 <= Count(data, k) <= MaxRun
  }

  /** Two neighbouring pairs share a colour only after a full run of 255. */
  predicate Maximal(data: seq<Byte>)
    requires |data| % 2 == 0
  {
    forall k :: 0 <= k && k + 1 < |data| / 2 && Colour(data, k) == Colour(data, k + 1) ==> Count(data, k) == MaxRun
  }

  /** compress_frame_rle on an image's values: (count, colour) pairs whose
      runs give back the pixel values exactly. */
  method Compress(image: seq<nat>) returns (output: seq<Byte>)
    ensures |output| % 2 == 0
    ensures CountsInRange(output) && Maximal(output)
    ensures Expand(output) == PixelValues(image)
    ensures |image| == 0 <==> output == []
  {
    var pixels := PixelValues(image);
    if |pixels| == 0 {
      return [];
    }
    output := [];
    var current := pixels[0];
    var count: nat := 1;
    for i := 1 to |pixels|
      invariant |output| % 2 == 0
      invariant 1 <= count <= MaxRun
      invariant CountsInRange(output) && Maximal(output)
      invariant |output| >= 2 && Colour(output, |output| / 2 - 1) == current ==> Count(output, |output| / 2 - 1) == MaxRun
      invariant RunsOf(output, |output| / 2) + Run(count, current) == pixels[..i]
    {
      if pixels[i] == current && count < MaxRun {
        count := count + 1;
        assert Run(count, current) == Run(count - 1, current) + [pixels[i]];
      } else {
        output := Emit(output, count, current);
        current := pixels[i];
        count := 1;
      }
    }
    output := Emit(output, count, current);
    assert pixels[..|pixels|] == pixels;
  }

  /** output.extend(struct.pack("BB", count, current_color)). */
  method Emit(output: seq<Byte>, count: Byte, colour: Byte) returns (r: seq<Byte>)
    requires |output| % 2 == 0 && 1 <= count
    requires CountsInRange(output) && Maximal(output)
    requires |output| >= 2 && Colour(output, |output| / 2 - 1) == colour ==> Count(output, |output| / 2 - 1) == MaxRun
    ensures r == output + [count, colour]
    ensures |r| % 2 == 0 && CountsInRange(r) && Maximal(r)
    ensures RunsOf(r, |r| / 2) == RunsOf(output, |output| / 2) + Run(count, colour)
  {
    r := output + [count, colour];
    RunsOfExtend(output, [count, colour], |output| / 2);
    assert Count(r, |output| / 2) == count && Colour(r, |output| / 2) == colour;
    forall k | 0 <= k < |output| / 2
      ensures Count(r, k) == Count(output, k) && Colour(r, k) == Colour(output, k)
    {
    }
  }

  /* ---------------------------------------------------------------------
     The offset table: generate_c_header.
     --------------------------------------------------------------------- */

  /** frames_data: the compressed frames laid end to end. */
  function Concat(frames: seq<seq<Byte>>): (r: seq<Byte>)
  {
    if |frames| == 0 then [] else Concat(frames[..|frames| - 1]) + frames[|frames| - 1]
  }

  /** frame_offsets: where each frame starts in frames_data. */
  function Offsets(frames: seq<seq<Byte>>): (r: seq<nat>)
    ensures |r| == |frames|
  {
    seq(|frames|, i requires 0 <= i < |frames| => |Concat(frames[..i])|)
  }

  /** The running sum over the compressed frames: returns frame_offsets
      and total_data_size. */
  method FrameOffsets(frames: seq<seq<Byte>>) returns (offsets: seq<nat>, total: nat)
    ensures offsets == Offsets(frames)
    ensures total == |Concat(frames)|
  {
    offsets := [];
    var running: nat := 0;
    for i := 0 to |frames|
      invariant |offsets| == i
      invariant forall j :: 0 <= j < i ==> offsets[j] == |Concat(frames[..j])|
      invariant running == |Concat(frames[..i])|
    {
      offsets := offsets + [running];
      assert frames[..i + 1][..i] == frames[..i];
      running := running + |frames[i]|;
    }
    assert frames[..|frames|] == frames;
    total := running;
  }

  /** The table starts at 0 and each offset is the previous one plus the
      previous frame's length. */
  lemma OffsetsRecurrence(frames: seq<seq<Byte>>)
    ensures |frames| > 0 ==> Offsets(frames)[0] == 0
    ensures forall i :: 0 <= i && i + 1 < |frames| ==> Offsets(frames)[i + 1] == Offsets(frames)[i] + |frames[i]|
  {
    forall i | 0 <= i && i + 1 < |frames|
      ensures Offsets(frames)[i + 1] == Offsets(frames)[i] + |frames[i]|
    {
      assert frames[..i + 1][..i] == frames[..i];
    }
  }

  /** The frames before i and from i on make up the whole data. */
  lemma {:induction false} ConcatSplit(frames: seq<seq<Byte>>, i: nat)
    requires i <= |frames|
    ensures Concat(frames) == Concat(frames[..i]) + Concat(frames[i..])
  {
    if i < |frames| {
      var n := |frames| - 1;
      ConcatSplit(frames[..n], i);
      assert frames[..n][..i] == frames[..i];
      assert frames[i..][..|frames[i..]| - 1] == frames[..n][i..];
    } else {
      assert frames[..i] == frames;
    }
  }

  /** Offsets that never decrease and stay inside the data. */
  predicate Monotone(offsets: seq<nat>, total: nat)
  {
    (forall i :: 0 <= i && i + 1 < |offsets| ==> offsets[i] <= offsets[i + 1])
    && (forall i :: 0 <= i < |offsets| ==> offsets[i] <= total)
  }

  lemma OffsetsMonotone(frames: seq<seq<Byte>>)
    ensures Monotone(Offsets(frames), |Concat(frames)|)
  {
    OffsetsRecurrence(frames);
    forall i | 0 <= i < |frames|
      ensures Offsets(frames)[i] <= |Concat(frames)|
    {
      ConcatSplit(frames, i);
    }
  }

  /** BAD_APPLE_Play's frame_size: up to the next offset, the last frame up
      to total_data_size. */
  function FrameSize(offsets: seq<nat>, total: nat, frame: nat): (r: nat)
    requires frame < |offsets| && Monotone(offsets, total)
    ensures offsets[frame] + r <= total
  {
    (if frame + 1 < |offsets| then offsets[frame + 1] else total) - offsets[frame]
  }

  /** The bytes frame i is decoded from: &frames_data[offset], frame_size. */
  function FrameBytes(data: seq<Byte>, offsets: seq<nat>, frame: nat): seq<Byte>
    requires frame < |offsets| && Monotone(offsets, |data|)
  {
    data[offsets[frame]..offsets[frame] + FrameSize(offsets, |data|, frame)]
  }

  /** The player reads back exactly the bytes the encoder emitted for each
      frame. */
  lemma FrameBytesRoundTrip(frames: seq<seq<Byte>>, frame: nat)
    requires frame < |frames|
    ensures Monotone(Offsets(frames), |Concat(frames)|)
    ensures FrameBytes(Concat(frames), Offsets(frames), frame) == frames[frame]
  {
    OffsetsMonotone(frames);
    OffsetsRecurrence(frames);
    ConcatSplit(frames, frame);
    var rest := frames[frame..];
    ConcatSplit(rest, 1);
    assert rest[..1] == [frames[frame]];
    assert Concat([frames[frame]]) == frames[frame] by {
      var one: seq<seq<Byte>> := [frames[frame]];
      assert one[..0] == [];
    }
    if frame + 1 < |frames| {
      ConcatSplit(frames, frame + 1);
    }
  }

  /* ---------------------------------------------------------------------
     The decoder: BAD_APPLE_DecodeFrame into gFrameBuffer[8][128].
     --------------------------------------------------------------------- */

  /** gFrameBuffer: 8 pages of 128 columns, one bit per row. */
  predicate Screen(fb: array2<bv8>)
  {
    fb.Length0 == Height / 8 && fb.Length1 == Width
  }

  /** Pixel p sits in page (p/128)/8, column p%128, bit (p/128)%8. */
  function Page(p: nat): nat { (p / Width) / 8 }
  function Column(p: nat): nat { p % Width }
  function Row(p: nat): nat { (p / Width) % 8 }

  function Mask(bit: nat): bv8
    requires bit < 8
  {
    (1 as bv8) << bit
  }

  /** Whether pixel p is lit. */
  predicate Lit(fb: array2<bv8>, p: nat)
    requires Screen(fb) && p < FramePixels
    reads fb
  {
    fb[Page(p), Column(p)] & Mask(Row(p)) != 0
  }

  /** Whether a compressed frame shows pixel p: a run of non-zero colour
      covers it. */
  predicate Shows(data: seq<Byte>, p: nat)
  {
    p < |Expand(data)| && Expand(data)[p] != 0
  }

  /** Pixel p's page, column and bit are in range and determine p. */
  lemma Cell(p: nat)
    requires p < FramePixels
    ensures Page(p) < Height / 8 && Column(p) < Width && Row(p) < 8
    ensures p == (Page(p) * 8 + Row(p)) * Width + Column(p)
  {
  }

  /** Or-ing a bit into a byte sets that bit and keeps the others. */
  lemma SetBit(v: bv8, b: nat, c: nat)
    requires b < 8 && c < 8
    ensures ((v | Mask(b)) & Mask(c) != 0) <==> (v & Mask(c) != 0 || b == c)
  {
    if b == c {
    } else {
      assert Mask(b) & Mask(c) == 0 by {
        if b == 0 { } else if b == 1 { } else if b == 2 { } else if b == 3 { }
        else if b == 4 { } else if b == 5 { } else if b == 6 { } else { }
      }
    }
  }

  /** gFrameBuffer[y / 8][x] |= 1 << (y % 8) for pixel p. */
  method SetPixel(fb: array2<bv8>, p: nat)
    requires Screen(fb) && p < FramePixels
    modifies fb
    ensures forall q :: 0 <= q < FramePixels ==> (Lit(fb, q) <==> old(Lit(fb, q)) || q == p)
  {
    Cell(p);
    var x := p % Width;
    var y := p / Width;
    fb[y / 8, x] := fb[y / 8, x] | Mask(y % 8);
    forall q | 0 <= q < FramePixels
      ensures Lit(fb, q) <==> old(Lit(fb, q)) || q == p
    {
      Cell(q);
      if Page(q) == Page(p) && Column(q) == Column(p) {
        SetBit(old(fb[Page(p), Column(p)]), Row(p), Row(q));
      }
    }
  }

  /** BAD_APPLE_DecodeFrame: clears the frame buffer, then lights exactly
      the pixels that the frame's runs of non-zero colour cover, stopping
      after 8192 pixels or when fewer than two bytes are left. */
  method DecodeFrame(fb: array2<bv8>, data: seq<Byte>)
    requires Screen(fb)
    modifies fb
    ensures forall p :: 0 <= p < FramePixels ==> (Lit(fb, p) <==> Shows(data, p))
  {
    forall i, j | 0 <= i < Height / 8 && 0 <= j < Width {
      fb[i, j] := 0;
    }
    var compPos := 0;
    var pixelPos := 0;
    while compPos + 1 < |data| && pixelPos < FramePixels
      invariant compPos % 2 == 0 && compPos <= |data|
      invariant pixelPos == Min(|RunsOf(data, compPos / 2)|, FramePixels)
      invariant forall p :: 0 <= p < FramePixels ==>
        (Lit(fb, p) <==> p < pixelPos && RunsOf(data, compPos / 2)[p] != 0)
      decreases |data| - compPos
    {
      ghost var before := RunsOf(data, compPos / 2);
      var count := data[compPos];
      var colour := data[compPos + 1];
      compPos := compPos + 2;
      var i := 0;
      while i < count && pixelPos < FramePixels
        invariant 0 <= i <= count && pixelPos == |before| + i <= FramePixels
        invariant forall p :: 0 <= p < FramePixels ==>
          (Lit(fb, p) <==> (p < |before| && before[p] != 0) || (|before| <= p < pixelPos && colour != 0))
      {
        if colour != 0 {
          SetPixel(fb, pixelPos);
        }
        pixelPos := pixelPos + 1;
        i := i + 1;
      }
      assert RunsOf(data, compPos / 2) == before + Run(count, colour);
    }
    RunsOfPrefix(data, compPos / 2, |data| / 2);
  }

  /** BAD_APPLE_Play, with the exit poll as a parameter: decodes frame
      after frame until the exit check fires, leaving the last decoded
      frame in the frame buffer. Blitting and the frame delay are not part
      of this model. */
  method Play(fb: array2<bv8>, data: seq<Byte>, offsets: seq<nat>, exitRequested: nat -> bool) returns (shown: nat)
    requires Screen(fb) && Monotone(offsets, |data|)
    modifies fb
    ensures shown <= |offsets|
    ensures forall f :: 0 <= f < shown ==> !exitRequested(f)
    ensures shown < |offsets| ==> exitRequested(shown)
    ensures shown > 0 ==> forall p :: 0 <= p < FramePixels ==>
      (Lit(fb, p) <==> Shows(FrameBytes(data, offsets, shown - 1), p))
  {
    shown := 0;
    while shown < |offsets|
      invariant shown <= |offsets|
      invariant forall f :: 0 <= f < shown ==> !exitRequested(f)
      invariant shown > 0 ==> forall p :: 0 <= p < FramePixels ==>
        (Lit(fb, p) <==> Shows(FrameBytes(data, offsets, shown - 1), p))
    {
      if exitRequested(shown) {
        return;
      }
      var offset := offsets[shown];
      var nextOffset := if shown + 1 < |offsets| then offsets[shown + 1] else |data|;
      var frameSize := nextOffset - offset;
      DecodeFrame(fb, data[offset..offset + frameSize]);
      shown := shown + 1;
    }
  }

  /** A frame encoded from at most 8192 pixel values lights exactly the
      pixels whose value is non-zero. */
  method EncodeThenDecode(fb: array2<bv8>, image: seq<nat>)
    requires Screen(fb) && |image| <= FramePixels
    modifies fb
    ensures forall p :: 0 <= p < FramePixels ==> (Lit(fb, p) <==> p < |image| && image[p] != 0)
  {
    var data := Compress(image);
    DecodeFrame(fb, data);
  }

  /* ---------------------------------------------------------------------
     The frame data shipped in App/app/bad_apple_frames.h.
     --------------------------------------------------------------------- */

  /** One all-black frame: sixteen runs of 255 and one of 32, colour 0. */
  const FixtureData: seq<Byte> := seq(32, i requires 0 <= i < 32 => if i % 2 == 0 then 255 else 0) + [32, 0]
  const FixtureOffsets: seq<nat> := [0]

  /** k runs of 255 dark pixels. */
  lemma {:induction false} DarkRuns(data: seq<Byte>, k: nat)
    requires 2 * k <= |data|
    requires forall j :: 0 <= j < k ==> Count(data, j) == MaxRun && Colour(data, j) == 0
    ensures RunsOf(data, k) == Run(MaxRun * k, 0)
  {
    if k > 0 {
      DarkRuns(data, k - 1);
    }
  }

  /** The shipped frame covers 4112 pixels, all dark, and the player takes
      all 34 bytes for it. */
  lemma Fixture()
    ensures |FixtureData| == 34 && Monotone(FixtureOffsets, |FixtureData|)
    ensures FrameBytes(FixtureData, FixtureOffsets, 0) == FixtureData
    ensures |Expand(FixtureData)| == 4112
    ensures forall p :: !Shows(FixtureData, p)
  {
    forall j | 0 <= j < 16
      ensures Count(FixtureData, j) == MaxRun && Colour(FixtureData, j) == 0
    {
    }
    DarkRuns(FixtureData, 16);
    assert Count(FixtureData, 16) == 32 && Colour(FixtureData, 16) == 0;
    assert Expand(FixtureData) == Run(MaxRun * 16, 0) + Run(32, 0);
  }
}
