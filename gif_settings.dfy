/**
 * Settings of the GIF encoder and of splitting a GIF into frames, built from
 * parsed command-line arguments (src/gif/settings.rs).
 */
module GifConfig {
  import opened Wrappers
  import opened Ints
  import opened Args
  import opened Paths

  /**
   * `repeat` is stored one below the requested count (an `i32`), `quality`
   * is a `u8`, `speed` an `f32` kept as an exact real.
   */
  datatype GifSettings = GifSettings(repeat: int, quality: nat, speed: real, fast: bool)

  const DEFAULT_GIF := GifSettings(-1, 75, 1.0, false)

  /** `GifSettings::from_args`. */
  function FromArgs(p: ArgParser): (s: GifSettings)
    ensures InI32(s.repeat) && InU8(s.quality)
    ensures p.args.None? ==> s == DEFAULT_GIF
    ensures p.args.Some? ==> s.fast == p.args.value.IsPresent("fast")
  {
    match p.args
    case None => DEFAULT_GIF
    case Some(m) =>
      GifSettings(
        StoredRepeat(p),
        Parse(p, "quality", ReadU8, DEFAULT_GIF.quality),
        Parse(p, "speed", ReadDecimal, DEFAULT_GIF.speed),
        m.IsPresent("fast"))
  }

  /** A requested repeat count `n` is stored as `n - 1`, wrapping only at the bottom of `i32`. */
  lemma StoredRepeatIsRequestedMinusOne(m: Matches, n: int)
    requires m.ValueOf("repeat").Some? && ReadI32(m.ValueOf("repeat").value) == Some(n)
    ensures I32_MIN < n ==> FromArgs(ArgParser(Some(m))).repeat == n - 1
    ensures n == I32_MIN ==> FromArgs(ArgParser(Some(m))).repeat == I32_MAX
  {
  }

  /**
   * Without a readable `--repeat` the fallback is the default -1, which is
   * decremented in turn: the stored value is -2.
   */
  lemma MissingRepeatIsMinusTwo(m: Matches)
    requires m.ValueOf("repeat").None? || ReadI32(m.ValueOf("repeat").value).None?
    ensures FromArgs(ArgParser(Some(m))).repeat == -2
  {
  }

  /** `quality` and `speed` are the parsed values when readable, else the defaults 75 and 1.0. */
  lemma QualityAndSpeedPassThrough(m: Matches)
    ensures m.ValueOf("quality").Some? && ReadU8(m.ValueOf("quality").value).Some? ==>
      FromArgs(ArgParser(Some(m))).quality == ReadU8(m.ValueOf("quality").value).value
    ensures m.ValueOf("quality").None? || ReadU8(m.ValueOf("quality").value).None? ==>
      FromArgs(ArgParser(Some(m))).quality == 75
    ensures m.ValueOf("speed").Some? && ReadDecimal(m.ValueOf("speed").value).Some? ==>
      FromArgs(ArgParser(Some(m))).speed == ReadDecimal(m.ValueOf("speed").value).value
    ensures m.ValueOf("speed").None? || ReadDecimal(m.ValueOf("speed").value).None? ==>
      FromArgs(ArgParser(Some(m))).speed == 1.0
  {
  }

  /** A quality that overflows `u8` (`--quality 300`) silently falls back to 75. */
  lemma QualityOutOfRangeFallsBack(m: Matches, n: nat)
    requires m.ValueOf("quality") == Some(Show(n)) && U8_MAX < n
    ensures FromArgs(ArgParser(Some(m))).quality == DEFAULT_GIF.quality
  {
    ReadU8Digits(n);
  }

  /** The repository's own example: `--repeat 5 --quality 10 --speed 1.1 --fast`. */
  lemma FromArgsExample(m: Matches)
    requires m == Matches(map["repeat" := ["5"], "quality" := ["10"], "speed" := ["1.1"]], {"fast"})
    ensures FromArgs(ArgParser(Some(m))) == GifSettings(4, 10, 1.1, true)
  {
    var p := ArgParser(Some(m));
    assert StoredRepeat(p) == 4 by {
      ReadShowUnsigned(5);
      assert Show(5) == "5";
    }
    assert Parse(p, "quality", ReadU8, DEFAULT_GIF.quality) == 10 by {
      ReadShowUnsigned(10);
      assert Show(10) == "10";
    }
    assert Parse(p, "speed", ReadDecimal, DEFAULT_GIF.speed) == 1.1 by {
      assert m.ValueOf("speed") == Some("1.1");
      SpeedText();
    }
  }

  lemma SpeedText()
    ensures ReadDecimal("1.1") == Some(1.1)
  {
    var one := "1";
    assert DigitsValue(one) == 1 by { assert one[..0] == []; }
    assert Shifted(1.0, 1) == 0.1 by {
      assert Shifted(1.0, 0) == 1.0;
    }
    assert DecimalValue(one, one) == 1.1;
    PointDecimal(one, one);
    assert one + "." + one == "1.1";
  }

  datatype SplitSettings = SplitSettings(file: string, dir: string)

  const DEFAULT_SPLIT := SplitSettings("", "")

  /**
   * `SplitSettings::from_args`. `defaultPath` stands for
   * `File::get_default_path`, which places a name in the default output
   * location.
   */
  function SplitFromArgs(p: ArgParser, defaultPath: string -> string): (s: SplitSettings)
    ensures p.args.None? ==> s == DEFAULT_SPLIT
    ensures p.args.Some? ==> s.file == p.args.value.ValueOf("file").GetOr("")
    ensures p.args.Some? && p.args.value.ValueOf("dir").Some? ==> s.dir == p.args.value.ValueOf("dir").value
    ensures p.args.Some? && p.args.value.ValueOf("dir").None? ==> s.dir == defaultPath(FramesDirName(s.file))
  {
    match p.args
    case None => DEFAULT_SPLIT
    case Some(m) =>
      var file := m.ValueOf("file").GetOr("");
      var dir := match m.ValueOf("dir")
        case Some(d) => d
        case None => defaultPath(FramesDirName(file));
      SplitSettings(file, dir)
  }

  /** Without `--dir`, splitting file `x` goes to the default location of `x_frames`. */
  lemma SplitDefaultsToFramesDir(m: Matches, name: string, defaultPath: string -> string)
    requires m.ValueOf("file") == Some(name) && m.ValueOf("dir").None?
    requires name != []
    requires forall i :: 0 <= i < |name| ==> name[i] != '/' && name[i] != '.'
    ensures SplitFromArgs(ArgParser(Some(m)), defaultPath) == SplitSettings(name, defaultPath(name + "_frames"))
  {
    FramesDirOfPlainName(name);
  }

  /** Without `--dir`, splitting `clip.gif` goes to the default location of `clip_frames`. */
  lemma SplitDropsExtension(m: Matches, base: string, ext: string, defaultPath: string -> string)
    requires m.ValueOf("file") == Some(base + "." + ext) && m.ValueOf("dir").None?
    requires base != []
    requires forall i :: 0 <= i < |base| ==> base[i] != '/' && base[i] != '.'
    requires forall i :: 0 <= i < |ext| ==> ext[i] != '/' && ext[i] != '.'
    ensures SplitFromArgs(ArgParser(Some(m)), defaultPath).dir == defaultPath(base + "_frames")
  {
    FramesDirOfDottedName(base, ext);
  }
}
