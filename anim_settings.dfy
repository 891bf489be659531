/**
 * Settings for building an animation from frame files and for splitting one
 * into frames (src/anim/settings.rs). Shell expansion (`shellexpand::full`),
 * directory listing (`fs::read_dir`) and the default output location
 * (`File::get_default_path`) are supplied as functions.
 */
module AnimConfig {
  import opened Wrappers
  import opened Ints
  import opened Args
  import opened Paths
  import opened Natord

  /**
   * `fps` is a `u32`, `repeat` an `i32` stored one below the requested
   * count, `quality` a `u8`; `speed` and the `cut` window (milliseconds)
   * are `f32` values kept as exact reals. `gifski` is the pair
   * (use gifski, use its fast mode).
   */
  datatype AnimSettings = AnimSettings(
    fps: int,
    repeat: int,
    quality: int,
    speed: real,
    cut: (real, real),
    frames: seq<string>,
    gifski: (bool, bool))

  const DEFAULT_ANIM := AnimSettings(20, -1, 75, 1.0, (0.0, 0.0), [], (false, false))

  /** The message the program stops with when the frame directory cannot be listed. */
  const DIR_READ_ERROR := "Could not read files from directory"

  /** `shellexpand::full(text)`, or `text` itself when expansion fails. */
  function Expand(expand: string -> Option<string>, text: string): (r: string)
    ensures expand(text).Some? ==> r == expand(text).value
    ensures expand(text).None? ==> r == text
  {
    expand(text).GetOr(text)
  }

  /**
   * The frame list `get_frames` starts from: the listing of the expanded
   * `--dir` when given (nothing when it cannot be listed), else the
   * `--frames` values in command-line order, else the empty list.
   */
  function FrameSource(m: Matches, expand: string -> Option<string>, readDir: string -> Option<seq<string>>)
    : (r: Option<seq<string>>)
    ensures r.None? <==> m.ValueOf("dir").Some? && readDir(Expand(expand, m.ValueOf("dir").value)).None?
    ensures m.ValueOf("dir").Some? && r.Some? ==> r.value == readDir(Expand(expand, m.ValueOf("dir").value)).value
    ensures m.ValueOf("dir").None? && m.ValuesOf("frames").Some? ==> r == Some(m.ValuesOf("frames").value)
    ensures m.ValueOf("dir").None? && m.ValuesOf("frames").None? ==> r == Some([])
  {
    match m.ValueOf("dir")
    case Some(dir) => readDir(Expand(expand, dir))
    case None => Some(m.ValuesOf("frames").GetOr([]))
  }

  /**
   * `AnimSettings::get_frames`: the frame source, sorted in natural order
   * unless `--no-sort` is given. A directory that cannot be listed stops the
   * program.
   */
  method GetFrames(m: Matches, expand: string -> Option<string>, readDir: string -> Option<seq<string>>)
    returns (r: Result<seq<string>, string>)
    ensures r.Err? <==> FrameSource(m, expand, readDir).None?
    ensures r.Err? ==> r.error == DIR_READ_ERROR
    ensures r.Ok? ==> multiset(r.value) == multiset(FrameSource(m, expand, readDir).value)
    ensures r.Ok? && m.IsPresent("no-sort") ==> r.value == FrameSource(m, expand, readDir).value
    ensures r.Ok? && !m.IsPresent("no-sort") ==> Sorted(r.value)
  {
    var source := FrameSource(m, expand, readDir);
    if source.None? {
      return Err(DIR_READ_ERROR);
    }
    var values := source.value;
    if !m.IsPresent("no-sort") {
      values := SortNatural(values);
    }
    return Ok(values);
  }

  /** The parsed frame rate when it is positive, else the default 20: never zero. */
  function NormalFps(p: ArgParser): (fps: int)
    ensures 0 < fps && InU32(fps)
    ensures Readable(p, "fps", ReadU32) && ReadValue(p, "fps", ReadU32) > 0 ==> fps == ReadValue(p, "fps", ReadU32)
    ensures !(Readable(p, "fps", ReadU32) && ReadValue(p, "fps", ReadU32) > 0) ==> fps == DEFAULT_ANIM.fps
  {
    var parsed := Parse(p, "fps", ReadU32, DEFAULT_ANIM.fps);
    if parsed > 0 then parsed else DEFAULT_ANIM.fps
  }

  /** `--fps 0` and a rate that overflows `u32` (`--fps 5000000000`) both fall back to 20. */
  lemma FpsFallsBack(m: Matches, n: nat)
    requires m.ValueOf("fps") == Some(Show(n)) && (n == 0 || U32_MAX < n)
    ensures NormalFps(ArgParser(Some(m))) == DEFAULT_ANIM.fps
  {
    ReadU32Digits(n);
  }

  /** `(gifski || fast, fast)`: the fast mode always brings gifski with it. */
  function GifskiFlags(m: Matches): (flags: (bool, bool))
    ensures flags.1 ==> flags.0
    ensures flags.0 <==> m.IsPresent("gifski") || m.IsPresent("fast")
    ensures flags.1 <==> m.IsPresent("fast")
  {
    (m.IsPresent("gifski") || m.IsPresent("fast"), m.IsPresent("fast"))
  }

  /** The cut window: the parsed seconds (default 0) scaled to milliseconds. */
  function CutWindow(p: ArgParser): (cut: (real, real))
    ensures Readable(p, "cut-beginning", ReadDecimal) ==> cut.0 == ReadValue(p, "cut-beginning", ReadDecimal) * 1000.0
    ensures !Readable(p, "cut-beginning", ReadDecimal) ==> cut.0 == 0.0
    ensures Readable(p, "cut-end", ReadDecimal) ==> cut.1 == ReadValue(p, "cut-end", ReadDecimal) * 1000.0
    ensures !Readable(p, "cut-end", ReadDecimal) ==> cut.1 == 0.0
  {
    (Parse(p, "cut-beginning", ReadDecimal, DEFAULT_ANIM.cut.0) * 1000.0,
     Parse(p, "cut-end", ReadDecimal, DEFAULT_ANIM.cut.1) * 1000.0)
  }

  /** `AnimSettings::from_parser`. */
  method FromParser(p: ArgParser, expand: string -> Option<string>, readDir: string -> Option<seq<string>>)
    returns (r: Result<AnimSettings, string>)
    ensures p.args.None? ==> r == Ok(DEFAULT_ANIM)
    ensures r.Err? <==> p.args.Some? && FrameSource(p.args.value, expand, readDir).None?
    ensures r.Err? ==> r.error == DIR_READ_ERROR
    ensures r.Ok? ==> 0 < r.value.fps && InU32(r.value.fps) && InI32(r.value.repeat) && InU8(r.value.quality)
    ensures r.Ok? ==> (r.value.gifski.1 ==> r.value.gifski.0)
    ensures r.Ok? && p.args.Some? ==>
      && r.value.fps == NormalFps(p)
      && r.value.repeat == StoredRepeat(p)
      && r.value.quality == Parse(p, "quality", ReadU8, DEFAULT_ANIM.quality)
      && r.value.speed == Parse(p, "speed", ReadDecimal, DEFAULT_ANIM.speed)
      && r.value.cut == CutWindow(p)
      && r.value.gifski == GifskiFlags(p.args.value)
    ensures r.Ok? && p.args.Some? ==>
      multiset(r.value.frames) == multiset(FrameSource(p.args.value, expand, readDir).value)
    ensures r.Ok? && p.args.Some? && p.args.value.IsPresent("no-sort") ==>
      r.value.frames == FrameSource(p.args.value, expand, readDir).value
    ensures r.Ok? && p.args.Some? && !p.args.value.IsPresent("no-sort") ==> Sorted(r.value.frames)
  {
    match p.args {
      case None =>
        return Ok(DEFAULT_ANIM);
      case Some(m) =>
        var fps := NormalFps(p);
        var repeat := StoredRepeat(p);
        var quality := Parse(p, "quality", ReadU8, DEFAULT_ANIM.quality);
        var speed := Parse(p, "speed", ReadDecimal, DEFAULT_ANIM.speed);
        var cut := CutWindow(p);
        var frames := GetFrames(m, expand, readDir);
        if frames.Err? {
          return Err(frames.error);
        }
        return Ok(AnimSettings(fps, repeat, quality, speed, cut, frames.value, GifskiFlags(m)));
    }
  }

  /**
   * The repository's example: `--fps 15 --repeat 5 --quality 10 --gifski
   * --fast --speed 1.1 --cut-beginning 0.9 --cut-end 0.8` gives fps 15,
   * repeat 4, quality 10, both gifski flags, speed 1.1 and the cut window
   * (900, 800) in milliseconds.
   */
  lemma FromParserExample(m: Matches)
    requires m.ValueOf("fps") == Some("15") && m.ValueOf("repeat") == Some("5")
    requires m.ValueOf("quality") == Some("10") && m.ValueOf("speed") == Some("1.1")
    requires m.ValueOf("cut-beginning") == Some("0.9") && m.ValueOf("cut-end") == Some("0.8")
    requires m.IsPresent("gifski") && m.IsPresent("fast")
    ensures NormalFps(ArgParser(Some(m))) == 15
    ensures StoredRepeat(ArgParser(Some(m))) == 4
    ensures Parse(ArgParser(Some(m)), "quality", ReadU8, DEFAULT_ANIM.quality) == 10
    ensures Parse(ArgParser(Some(m)), "speed", ReadDecimal, DEFAULT_ANIM.speed) == 1.1
    ensures CutWindow(ArgParser(Some(m))) == (900.0, 800.0)
    ensures GifskiFlags(m) == (true, true)
  {
    ExampleIntegers(m);
    ExampleSpeed(m);
    ExampleCut(m);
  }

  lemma ExampleIntegers(m: Matches)
    requires m.ValueOf("fps") == Some("15") && m.ValueOf("repeat") == Some("5") && m.ValueOf("quality") == Some("10")
    ensures NormalFps(ArgParser(Some(m))) == 15
    ensures StoredRepeat(ArgParser(Some(m))) == 4
    ensures Parse(ArgParser(Some(m)), "quality", ReadU8, DEFAULT_ANIM.quality) == 10
  {
    ReadShowUnsigned(15);
    assert Show(15) == "15";
    ReadShowUnsigned(5);
    assert Show(5) == "5";
    ReadShowUnsigned(10);
    assert Show(10) == "10";
  }

  lemma ExampleSpeed(m: Matches)
    requires m.ValueOf("speed") == Some("1.1")
    ensures Parse(ArgParser(Some(m)), "speed", ReadDecimal, DEFAULT_ANIM.speed) == 1.1
  {
    DecimalText("1.1", 1, 1);
  }

  lemma ExampleCut(m: Matches)
    requires m.ValueOf("cut-beginning") == Some("0.9") && m.ValueOf("cut-end") == Some("0.8")
    ensures CutWindow(ArgParser(Some(m))) == (900.0, 800.0)
  {
    var p := ArgParser(Some(m));
    assert Parse(p, "cut-beginning", ReadDecimal, DEFAULT_ANIM.cut.0) == 0.9 by {
      DecimalText("0.9", 0, 9);
    }
    assert Parse(p, "cut-end", ReadDecimal, DEFAULT_ANIM.cut.1) == 0.8 by {
      DecimalText("0.8", 0, 8);
    }
  }

  /** A one-digit, one-decimal text `d.f` reads as `d + f / 10`. */
  lemma DecimalText(t: string, d: nat, f: nat)
    requires d < 10 && f < 10
    requires t == [('0' as int + d) as char, '.', ('0' as int + f) as char]
    ensures ReadDecimal(t) == Some(d as real + f as real / 10.0)
  {
    var whole, fraction := [t[0]], [t[2]];
    assert t == whole + "." + fraction;
    assert DigitsValue(whole) == d by { assert whole[..0] == []; }
    assert DigitsValue(fraction) == f by { assert fraction[..0] == []; }
    assert Shifted(f as real, 1) == f as real / 10.0 by {
      assert Shifted(f as real, 0) == f as real;
    }
    assert DecimalValue(whole, fraction) == d as real + f as real / 10.0;
    PointDecimal(whole, fraction);
  }


  /**
   * `AnimSettings::map_range`: the linear map sending `from` onto `to`.
   * When `from` is a single point the `f64` division has no finite result.
   */
  function MapRange(value: real, from: (real, real), to: (real, real)): (r: Option<real>)
    ensures r.None? <==> from.0 == from.1
  {
    if from.0 == from.1 then None
    else Some(to.0 + Scaled(value - from.0, to.1 - to.0, from.1 - from.0))
  }

  /** `x * e / d`, the offset into the target range. */
  function Scaled(x: real, e: real, d: real): real
    requires d != 0.0
  {
    x * e / d
  }

  /** The ends of `from` go to the ends of `to`. */
  lemma MapRangeEndpoints(from: (real, real), to: (real, real))
    requires from.0 != from.1
    ensures MapRange(from.0, from, to) == Some(to.0)
    ensures MapRange(from.1, from, to) == Some(to.1)
  {
    var d, e := from.1 - from.0, to.1 - to.0;
    assert Scaled(from.0 - from.0, e, d) == 0.0;
    DivCancel(e, d);
  }

  /** Between increasing ranges the map keeps order, and maps `from` into `to`. */
  lemma MapRangeMonotone(v: real, w: real, from: (real, real), to: (real, real))
    requires from.0 < from.1 && to.0 <= to.1 && v <= w
    ensures MapRange(v, from, to).value <= MapRange(w, from, to).value
    ensures from.0 <= v <= from.1 ==> to.0 <= MapRange(v, from, to).value <= to.1
  {
    var d, e := from.1 - from.0, to.1 - to.0;
    ScaledOrder(v - from.0, w - from.0, e, d);
    if from.0 <= v <= from.1 {
      ScaledOrder(0.0, v - from.0, e, d);
      assert Scaled(0.0, e, d) == 0.0;
      ScaledOrder(v - from.0, d, e, d);
      DivCancel(e, d);
    }
  }

  lemma DivCancel(a: real, d: real)
    requires d != 0.0
    ensures Scaled(d, a, d) == a
  {
  }

  /** Scaling by `e >= 0` and dividing by `d > 0` keep order. */
  lemma ScaledOrder(x: real, y: real, e: real, d: real)
    requires x <= y && e >= 0.0 && d > 0.0
    ensures Scaled(x, e, d) <= Scaled(y, e, d)
  {
    assert y * e - x * e == (y - x) * e;
    assert y * e / d - x * e / d == (y * e - x * e) / d;
  }

  datatype SplitSettings = SplitSettings(file: string, dir: string)

  const DEFAULT_SPLIT := SplitSettings("", "")

  /** `SplitSettings::from_parser`: both paths are shell-expanded; `dir` defaults to `<stem>_frames`. */
  function SplitFromParser(p: ArgParser, expand: string -> Option<string>, defaultPath: string -> string)
    : (s: SplitSettings)
    ensures p.args.None? ==> s == DEFAULT_SPLIT
    ensures p.args.Some? ==> s.file == Expand(expand, p.args.value.ValueOf("file").GetOr(""))
    ensures p.args.Some? && p.args.value.ValueOf("dir").Some? ==>
      s.dir == Expand(expand, p.args.value.ValueOf("dir").value)
    ensures p.args.Some? && p.args.value.ValueOf("dir").None? ==> s.dir == defaultPath(FramesDirName(s.file))
  {
    match p.args
    case None => DEFAULT_SPLIT
    case Some(m) =>
      var file := Expand(expand, m.ValueOf("file").GetOr(""));
      var dir := match m.ValueOf("dir")
        case Some(d) => Expand(expand, d)
        case None => defaultPath(FramesDirName(file));
      SplitSettings(file, dir)
  }

  /** The repository's example: splitting `x` with no `--dir` goes to `x_frames`. */
  lemma SplitExample(m: Matches, x: string, expand: string -> Option<string>, defaultPath: string -> string)
    requires x == "x"
    requires m.ValueOf("file") == Some(x) && m.ValueOf("dir").None?
    requires expand(x) == Some(x)
    ensures SplitFromParser(ArgParser(Some(m)), expand, defaultPath) == SplitSettings(x, defaultPath(x + "_frames"))
  {
    assert forall i :: 0 <= i < |x| ==> x[i] != '/' && x[i] != '.';
    FramesDirOfPlainName(x);
  }
}
