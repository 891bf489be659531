/**
 * The streaming GIF encoder (src/gif/mod.rs). `Gif.New` writes the header
 * and the loop policy; `Gif.Save` walks the captured images in order, polls
 * the cancellation check before each one, stops at the first positive check
 * and otherwise writes one frame per image, returning at once on a failed
 * write.
 *
 * The cancellation check (`InputState::check_cancel_keys`, a keyboard poll)
 * is an oracle: `cancel[i]` is its answer before image `i`. The output sink
 * is an oracle too (`Output`): which of its writes fail.
 */
module GifEncoder {
  import opened Wrappers
  import opened Ints
  import opened Args
  import opened GifConfig
  import AnimConfig

  /** The loop policy written into the GIF; `Finite` carries a `u16`. */
  datatype Repeat = Finite(count: int) | Infinite

  /** Size of a capture rectangle in pixels (`u32`); its origin plays no part in encoding. */
  datatype Geometry = Geometry(width: int, height: int)

  /** A captured image: its pixels (one packed BGRA value each) and its size. */
  datatype Image = Image(pixels: seq<int>, geometry: Geometry)

  /**
   * A frame as handed to the output: the image whose pixels it carries, its
   * size as `u16`, the codec speed and the display delay in hundredths of a
   * second.
   */
  datatype Frame = Frame(image: Image, width: int, height: int, speed: int, delay: int)

  datatype IoError = WriteFailed

  /**
   * Which writes to the output fail: the header written when the encoder is
   * created, the loop-policy extension, and each frame in turn.
   */
  datatype Output = Output(headerFails: bool, loopFails: bool, frameFails: seq<bool>)

  /**
   * The loop policy for a stored repeat value: a non-negative value is a
   * finite count, cast to `u16` (0 when it does not fit); a negative value
   * loops forever.
   */
  function LoopPolicy(repeat: int): (r: Repeat)
    ensures 0 <= repeat <= U16_MAX ==> r == Finite(repeat)
    ensures U16_MAX < repeat ==> r == Finite(0)
    ensures repeat < 0 ==> r == Infinite
  {
    if repeat >= 0 then Finite(U16OrZero(repeat)) else Infinite
  }

  /**
   * The codec speed for a quality: `30 - map_range(quality, (1, 100),
   * (0, 29)) as i32`, the cast truncating toward zero. Over integers that is
   * 30 - (quality - 1) * 29 / 99 from quality 1 on, and 30 at quality 0,
   * where -0.29 truncates to 0.
   */
  function Speed(quality: nat): (speed: int)
    ensures quality == 0 ==> speed == 30
    ensures quality >= 1 ==> speed == 30 - (quality - 1) * 29 / 99
  {
    var x := AnimConfig.MapRange(quality as real, (1.0, 100.0), (0.0, 29.0)).value;
    assert x == (quality as real - 1.0) * 29.0 / 99.0;
    if quality == 0 then
      assert x == -29.0 / 99.0;
      30 - TruncReal(x)
    else
      var a := (quality - 1) * 29;
      assert x == a as real / 99.0;
      TruncNinetyNinths(a);
      30 - TruncReal(x)
  }

  /**
   * The display delay, `((1 / fps as f32) * 100) as u16`: the whole
   * hundredths of a second in one frame period. At 0 fps the division gives
   * infinity, which the cast saturates to the largest `u16`.
   */
  function Delay(fps: int): (d: int)
    requires fps >= 0
    ensures InU16(d)
    ensures fps > 0 ==> d * fps <= 100 < (d + 1) * fps
    ensures fps == 0 ==> d == U16_MAX
  {
    if fps == 0 then U16_MAX else 100 / fps
  }

  /** Truncating a natural number of ninety-ninths gives the integer quotient. */
  lemma TruncNinetyNinths(a: nat)
    ensures TruncReal(a as real / 99.0) == a / 99
  {
    var k, r := a / 99, a % 99;
    assert a == 99 * k + r && 0 <= r < 99;
    var x := a as real / 99.0;
    assert x == k as real + r as real / 99.0;
    var n := TruncReal(x);
    assert n as real <= x < n as real + 1.0;
  }

  /** Over the documented qualities 1..100 the speed stays within the codec's 1..30. */
  lemma SpeedInCodecRange(quality: nat)
    requires 1 <= quality <= 100
    ensures 1 <= Speed(quality) <= 30
  {
    assert 0 <= (quality - 1) * 29 <= 99 * 29;
  }

  /** A higher quality never gives a higher speed value. */
  lemma SpeedNonIncreasing(q: nat, q': nat)
    requires q <= q'
    ensures Speed(q') <= Speed(q)
  {
    if q >= 1 {
      assert (q - 1) * 29 <= (q' - 1) * 29;
    }
  }

  /**
   * Quality 1 gives the fastest setting 30 and quality 100 the most careful
   * setting 1; quality 0 also gives 30, because -0.29 truncates to 0.
   */
  lemma SpeedAtEnds()
    ensures Speed(0) == 30 && Speed(1) == 30 && Speed(100) == 1
  {
  }

  /**
   * Nothing clamps qualities above 100, which a `u8` allows: 101..103 still
   * give 1, from 104 on the speed falls below the codec's range, and 255
   * gives -44.
   */
  lemma SpeedAboveHundred(quality: nat)
    requires 100 < quality
    ensures quality <= 103 ==> Speed(quality) == 1
    ensures 104 <= quality ==> Speed(quality) < 1
    ensures quality == 255 ==> Speed(quality) == -44
  {
    if 104 <= quality {
      assert (quality - 1) * 29 >= 103 * 29;
    }
  }

  /**
   * From the command line to the loop policy: `--repeat 0` loops forever,
   * `--repeat n` for n in 1..65536 plays `n - 1` extra loops, larger counts
   * overflow `u16` and give `Finite(0)`, and negative requests loop forever
   * except the very bottom of `i32`, where `n - 1` wraps round.
   */
  lemma RequestedRepeatLoopPolicy(m: Matches, n: int)
    requires m.ValueOf("repeat").Some? && ReadI32(m.ValueOf("repeat").value) == Some(n)
    ensures n == 0 ==> LoopPolicy(FromArgs(ArgParser(Some(m))).repeat) == Infinite
    ensures 1 <= n <= U16_MAX + 1 ==> LoopPolicy(FromArgs(ArgParser(Some(m))).repeat) == Finite(n - 1)
    ensures U16_MAX + 1 < n ==> LoopPolicy(FromArgs(ArgParser(Some(m))).repeat) == Finite(0)
    ensures I32_MIN < n < 0 ==> LoopPolicy(FromArgs(ArgParser(Some(m))).repeat) == Infinite
    ensures n == I32_MIN ==> LoopPolicy(FromArgs(ArgParser(Some(m))).repeat) == Finite(0)
  {
    StoredRepeatIsRequestedMinusOne(m, n);
  }

  /**
   * The GIF loops forever exactly when there are no arguments, when
   * `--repeat` is missing or unreadable (stored -2), or when the request is
   * at most 0 and above the bottom of `i32`.
   */
  lemma LoopsForeverIff(p: ArgParser)
    ensures LoopPolicy(FromArgs(p).repeat) == Infinite <==>
      || p.args.None?
      || !Readable(p, "repeat", ReadI32)
      || I32_MIN < ReadValue(p, "repeat", ReadI32) <= 0
  {
  }

  /** Answer number `i` of an oracle; an oracle that has run out answers false. */
  predicate Fires(oracle: seq<bool>, i: int) {
    0 <= i < |oracle| && oracle[i]
  }

  /** The first of the indices `0..n` at which the oracle answers true, or `n`. */
  function FirstFire(oracle: seq<bool>, n: nat): (k: nat)
    ensures k <= n
    ensures forall j :: 0 <= j < k ==> !Fires(oracle, j)
    ensures k < n ==> Fires(oracle, k)
  {
    if n == 0 then 0
    else
      var k := FirstFire(oracle, n - 1);
      if k < n - 1 then k else if Fires(oracle, n - 1) then n - 1 else n
  }

  /**
   * The frame written for `image`: its pixels, its size as `u16` (0 for a
   * side that does not fit), the codec speed and the delay, which fits the
   * `u16` field; for qualities 1..100 the speed lies in the codec's 1..30.
   */
  function EncodeFrame(image: Image, quality: nat, fps: nat): (frame: Frame)
    ensures frame.image == image
    ensures InU16(frame.width) && InU16(frame.height) && InU16(frame.delay)
    ensures InU16(image.geometry.width) ==> frame.width == image.geometry.width
    ensures InU16(image.geometry.height) ==> frame.height == image.geometry.height
    ensures 1 <= quality <= 100 ==> 1 <= frame.speed <= 30
  {
    assert 1 <= quality <= 100 ==> 1 <= Speed(quality) <= 30 by {
      if 1 <= quality <= 100 {
        SpeedInCodecRange(quality);
      }
    }
    Frame(image, U16OrZero(image.geometry.width), U16OrZero(image.geometry.height), Speed(quality), Delay(fps))
  }

  /** One frame per image, in order. */
  function EncodeAll(images: seq<Image>, quality: nat, fps: nat): (frames: seq<Frame>)
    ensures |frames| == |images|
    ensures forall i :: 0 <= i < |images| ==> frames[i] == EncodeFrame(images[i], quality, fps)
  {
    seq(|images|, i requires 0 <= i < |images| => EncodeFrame(images[i], quality, fps))
  }

  /** How many images `save` writes: those before the first cancellation and before the first failed write. */
  function SavedCount(n: nat, cancel: seq<bool>, fails: seq<bool>): nat {
    var c, f := FirstFire(cancel, n), FirstFire(fails, n);
    if c <= f then c else f
  }

  /** The frames `save` leaves in the output. */
  function Saved(images: seq<Image>, cancel: seq<bool>, fails: seq<bool>, quality: nat, fps: nat): seq<Frame> {
    EncodeAll(images[..SavedCount(|images|, cancel, fails)], quality, fps)
  }

  /** What `save` returns: success unless a write failed before any cancellation. */
  function SaveOutcome(n: nat, cancel: seq<bool>, fails: seq<bool>): Outcome<IoError> {
    if FirstFire(cancel, n) <= FirstFire(fails, n) then Pass else Fail(WriteFailed)
  }

  /**
   * `save` writes a prefix of the images' frames, in input order: never more
   * frames than images, and frame `j` carries image `j`.
   */
  lemma SavedIsPrefix(images: seq<Image>, cancel: seq<bool>, fails: seq<bool>, quality: nat, fps: nat)
    ensures |Saved(images, cancel, fails, quality, fps)| <= |images|
    ensures Saved(images, cancel, fails, quality, fps)
         == EncodeAll(images, quality, fps)[..|Saved(images, cancel, fails, quality, fps)|]
    ensures forall j :: 0 <= j < |Saved(images, cancel, fails, quality, fps)| ==>
      Saved(images, cancel, fails, quality, fps)[j].image == images[j]
  {
  }

  /**
   * A positive cancellation check before image `k`, with no earlier check
   * positive and no earlier write failed, stops `save` with exactly `k`
   * frames written, and `save` succeeds.
   */
  lemma SaveStopsAtCancel(images: seq<Image>, cancel: seq<bool>, fails: seq<bool>, quality: nat, fps: nat, k: nat)
    requires k < |images| && Fires(cancel, k)
    requires forall j :: 0 <= j < k ==> !Fires(cancel, j) && !Fires(fails, j)
    ensures |Saved(images, cancel, fails, quality, fps)| == k
    ensures SaveOutcome(|images|, cancel, fails) == Pass
  {
  }

  /**
   * A failed write of image `k`'s frame, with no cancellation up to `k` and
   * no earlier failure, makes `save` fail with the `k` earlier frames
   * written and none after.
   */
  lemma SaveStopsAtWriteError(images: seq<Image>, cancel: seq<bool>, fails: seq<bool>, quality: nat, fps: nat, k: nat)
    requires k < |images| && Fires(fails, k)
    requires forall j :: 0 <= j <= k ==> !Fires(cancel, j)
    requires forall j :: 0 <= j < k ==> !Fires(fails, j)
    ensures |Saved(images, cancel, fails, quality, fps)| == k
    ensures SaveOutcome(|images|, cancel, fails) == Fail(WriteFailed)
  {
  }

  /** Without cancellation or write errors every image is written once, in order, and `save` succeeds. */
  lemma SaveWritesEveryImage(images: seq<Image>, cancel: seq<bool>, fails: seq<bool>, quality: nat, fps: nat)
    requires forall j :: 0 <= j < |images| ==> !Fires(cancel, j) && !Fires(fails, j)
    ensures Saved(images, cancel, fails, quality, fps) == EncodeAll(images, quality, fps)
    ensures SaveOutcome(|images|, cancel, fails) == Pass
  {
    assert images[..|images|] == images;
  }

  /** Saving no images writes nothing and succeeds, whatever the oracles say. */
  lemma SaveOfNoImages(cancel: seq<bool>, fails: seq<bool>, quality: nat, fps: nat)
    ensures Saved([], cancel, fails, quality, fps) == []
    ensures SaveOutcome(0, cancel, fails) == Pass
  {
  }

  /**
   * `save` fails only on a failed write: there is an image `k` whose write
   * failed, nothing was cancelled up to it, and exactly the `k` frames
   * before it were written.
   */
  lemma SaveFailsOnlyOnWriteError(images: seq<Image>, cancel: seq<bool>, fails: seq<bool>, quality: nat, fps: nat)
    requires SaveOutcome(|images|, cancel, fails).Fail?
    ensures exists k ::
      && 0 <= k < |images|
      && Fires(fails, k)
      && (forall j :: 0 <= j <= k ==> !Fires(cancel, j))
      && |Saved(images, cancel, fails, quality, fps)| == k
  {
    var k := FirstFire(fails, |images|);
    assert Fires(fails, k);
  }

  /**
   * Every written frame carries the delay and speed of the settings alone:
   * the delay depends on nothing but the frame rate, whatever the images.
   */
  lemma SavedFramesShareDelayAndSpeed(images: seq<Image>, cancel: seq<bool>, fails: seq<bool>, quality: nat, fps: nat)
    ensures forall frame :: frame in Saved(images, cancel, fails, quality, fps) ==>
      frame.delay == Delay(fps) && frame.speed == Speed(quality)
  {
  }

  /** The GIF encoder: settings, frame rate, the header it wrote, and the frames written since. */
  class Gif {
    const fps: nat
    const settings: GifSettings
    /** The logical screen size written in the header, as `u16`. */
    const width: int
    const height: int
    /** The loop policy written after the header. */
    const repeat: Repeat
    const output: Output
    /** The frames written to the output so far. */
    var frames: seq<Frame>

    constructor (fps: nat, settings: GifSettings, width: int, height: int, repeat: Repeat, output: Output)
      ensures this.fps == fps && this.settings == settings && this.output == output
      ensures this.width == width && this.height == height && this.repeat == repeat
      ensures frames == []
    {
      this.fps := fps;
      this.settings := settings;
      this.width := width;
      this.height := height;
      this.repeat := repeat;
      this.output := output;
      frames := [];
    }

    /**
     * `Gif::new`: writes a header sized to the geometry (a side that does
     * not fit `u16` becomes 0), then the loop policy; either write may fail.
     */
    static method New(geometry: Geometry, output: Output, fps: nat, settings: GifSettings)
      returns (r: Result<Gif, IoError>)
      ensures r.Err? <==> output.headerFails || output.loopFails
      ensures r.Ok? ==> fresh(r.value) && r.value.frames == []
      ensures r.Ok? ==> r.value.repeat == LoopPolicy(settings.repeat)
      ensures r.Ok? ==> r.value.width == U16OrZero(geometry.width) && r.value.height == U16OrZero(geometry.height)
      ensures r.Ok? ==> r.value.fps == fps && r.value.settings == settings && r.value.output == output
    {
      if output.headerFails {
        return Err(WriteFailed);
      }
      var policy := LoopPolicy(settings.repeat);
      if output.loopFails {
        return Err(WriteFailed);
      }
      var gif := new Gif(fps, settings, U16OrZero(geometry.width), U16OrZero(geometry.height), policy, output);
      return Ok(gif);
    }

    /**
     * `Gif::save`, which consumes the encoder and so runs once, before any
     * frame is written. Before each image it polls the cancellation check;
     * on a positive answer it stops and succeeds. Otherwise it writes the
     * image's frame, returning the error if the write fails.
     */
    method Save(images: seq<Image>, cancel: seq<bool>) returns (r: Outcome<IoError>)
      requires frames == []
      modifies this
      ensures frames == Saved(images, cancel, output.frameFails, settings.quality, fps)
      ensures r == SaveOutcome(|images|, cancel, output.frameFails)
    {
      var i := 0;
      while i < |images|
        invariant 0 <= i <= |images|
        invariant i <= FirstFire(cancel, |images|) && i <= FirstFire(output.frameFails, |images|)
        invariant frames == EncodeAll(images[..i], settings.quality, fps)
      {
        if Fires(cancel, i) {
          break;
        }
        var frame := EncodeFrame(images[i], settings.quality, fps);
        if Fires(output.frameFails, i) {
          return Fail(WriteFailed);
        }
        frames := frames + [frame];
        i := i + 1;
        assert images[..i] == images[..i - 1] + [images[i - 1]];
      }
      return Pass;
    }
  }
}
