/** The data of one DCT frame (`DataEnc` in DCTRedux.py) as values: its
    provenance (names and headers), its three column regions, how they are
    cut from the raw array, how frames are combined and averaged, and the
    header-derived properties. The objects that hold this data, and the
    role counters, are in FrameObjects. */
module Frames {
  import opened PyOps
  import opened Planes
  import opened Outcomes

  /** A FITS header value. */
  datatype Value = Int(i: int) | Real(r: real) | Text(s: string)

  /** One FITS header, keyword to value. */
  type Header = map<string, Value>

  // ---------------------------------------------------------------------
  // Name extraction

  /** The characters of the regex class `[\,/]`, an escaped comma and a slash. */
  const Separators: set<char> := {',', '/'}

  /** The frame name taken from the path: the last field of the path split on
      ',' and '/', without its final five characters (the ".fits"). */
  function FrameName(path: string): (name: string)
    ensures NoneOf(name, Separators)
    ensures |name| <= |path|
  {
    var last := Last(Split(path, Separators));
    SplitLast(path, Separators);
    DropLast(last, 5);
    PySlice(last, 0, -5)
  }

  /** The name of `<directory>/<base>.fits` is `<base>`. */
  lemma FrameNameOfFile(directory: string, base: string)
    requires directory == [] || Last(directory) in Separators
    requires NoneOf(base, Separators)
    ensures FrameName(directory + base + ".fits") == base
  {
    var file := base + ".fits";
    assert NoneOf(file, Separators) by {
      forall j | 0 <= j < |file| ensures file[j] !in Separators {
        if j < |base| { assert file[j] == base[j]; }
      }
    }
    assert directory + base + ".fits" == directory + file;
    LastAfterSeparator(directory, file, Separators);
    DropLast(file, 5);
    assert file[..|file| - 5] == base;
  }

  /** The name of a path whose last field is t is t without its last five
      characters, or empty when t is shorter than five. */
  lemma FrameNameOfLastField(prefix: string, t: string)
    requires prefix == [] || Last(prefix) in Separators
    requires NoneOf(t, Separators)
    ensures FrameName(prefix + t) == if |t| < 5 then [] else t[..|t| - 5]
  {
    LastAfterSeparator(prefix, t, Separators);
    DropLast(t, 5);
  }

  // ---------------------------------------------------------------------
  // Region split

  /** `header[key]`, raising KeyError when the keyword is absent. */
  function Lookup(h: Header, key: string): (r: Result<Value>)
    ensures r.Ok? <==> key in h
    ensures r.Ok? ==> r.value == h[key]
    ensures r.Err? ==> r.error == MissingKey(key)
  {
    if key in h then Ok(h[key]) else Err(MissingKey(key))
  }

  /** `header[key]` used as a slice bound, which must be an integer. */
  function IntField(h: Header, key: string): (r: Result<int>)
    ensures r.Ok? <==> key in h && h[key].Int?
    ensures r.Ok? ==> r.value == h[key].i
    ensures key !in h ==> r == Err(MissingKey(key))
    ensures key in h && !h[key].Int? ==> r == Err(NotAnInteger(key))
  {
    if key !in h then Err(MissingKey(key))
    else match h[key]
      case Int(i) => Ok(i)
      case _ => Err(NotAnInteger(key))
  }

  /** Header values Python can subtract: integers and reals. */
  predicate Numeric(v: Value) {
    v.Int? || v.Real?
  }

  /** The number a numeric header value stands for. */
  function AsReal(v: Value): real
    requires Numeric(v)
  {
    if v.Int? then v.i as real else v.r
  }

  /** Python's `a - b` on two header values: an int when both are ints, a
      real when either is real, and TypeError when either is text. */
  function Difference(a: Value, b: Value): (r: Result<Value>)
    ensures r.Ok? <==> Numeric(a) && Numeric(b)
    ensures r.Err? ==> r.error == UnsupportedOperand
    ensures r.Ok? ==> Numeric(r.value) && AsReal(r.value) == AsReal(a) - AsReal(b)
    ensures r.Ok? ==> (r.value.Int? <==> a.Int? && b.Int?)
    ensures a.Int? && b.Int? ==> r == Ok(Int(a.i - b.i))
  {
    match (a, b)
    case (Int(x), Int(y)) => Ok(Int(x - y))
    case (Int(x), Real(y)) => Ok(Real(x as real - y))
    case (Real(x), Int(y)) => Ok(Real(x - y as real))
    case (Real(x), Real(y)) => Ok(Real(x - y))
    case _ => Err(UnsupportedOperand)
  }

  /** The prescan, image and overscan column regions of a frame. */
  datatype Regions = Regions(prescan: Plane, image: Plane, overscan: Plane)

  /** Python's `data[lo:hi]` on the column axis. */
  function Columns(data: Plane, lo: int, hi: int): (p: Plane)
    requires WellFormed(data)
    ensures WellFormed(p) && p.height == data.height
  {
    var cols := PySlice(data.columns, lo, hi);
    assert forall x :: 0 <= x < |cols| ==> cols[x] in data.columns;
    Plane(cols, data.height)
  }

  /** The three slices cut from the transposed array, evaluated as the
      source does: `data[0:PRESCAN]` first, then the lookups of NAXIS1 and
      POSTSCAN, their difference, and the slice with it. A missing keyword
      raises KeyError; a text operand of the difference, or a slice bound
      that is not an integer, raises TypeError. */
  function SplitRegions(h: Header, data: Plane): (r: Result<Regions>)
    requires WellFormed(data)
    ensures r.Ok? <==> IntField(h, "PRESCAN").Ok? && IntField(h, "NAXIS1").Ok? && IntField(h, "POSTSCAN").Ok?
    ensures IntField(h, "PRESCAN").Err? ==> r == Err(IntField(h, "PRESCAN").error)
    ensures IntField(h, "PRESCAN").Ok? && "NAXIS1" !in h ==> r == Err(MissingKey("NAXIS1"))
    ensures IntField(h, "PRESCAN").Ok? && "NAXIS1" in h && "POSTSCAN" !in h ==> r == Err(MissingKey("POSTSCAN"))
    ensures IntField(h, "PRESCAN").Ok? && "NAXIS1" in h && "POSTSCAN" in h ==>
      ((Numeric(h["NAXIS1"]) && Numeric(h["POSTSCAN"])) || r == Err(UnsupportedOperand))
    ensures r.Ok? ==> WellFormed(r.value.prescan) && WellFormed(r.value.image) && WellFormed(r.value.overscan)
    ensures r.Ok? ==> r.value.prescan.height == r.value.image.height == r.value.overscan.height == data.height
  {
    match IntField(h, "PRESCAN")
    case Err(e) => Err(e)
    case Ok(pre) =>
      match Lookup(h, "NAXIS1")
      case Err(e) => Err(e)
      case Ok(n1) =>
        match Lookup(h, "POSTSCAN")
        case Err(e) => Err(e)
        case Ok(post) =>
          match Difference(n1, post)
          case Err(e) => Err(e)
          case Ok(cut) =>
            if !cut.Int? then Err(NotAnInteger(if n1.Int? then "POSTSCAN" else "NAXIS1"))
            else Ok(Regions(Columns(data, 0, pre), Columns(data, pre, cut.i), Columns(data, cut.i, Width(data))))
  }

  /** `width`, NAXIS1 - PRESCAN - POSTSCAN of one header, evaluated as the
      source does: NAXIS1 and PRESCAN are looked up and subtracted before
      POSTSCAN is looked up. Reals take part and give a real width. */
  function HeaderWidth(h: Header): (r: Result<Value>)
    ensures "NAXIS1" !in h ==> r == Err(MissingKey("NAXIS1"))
    ensures "NAXIS1" in h && "PRESCAN" !in h ==> r == Err(MissingKey("PRESCAN"))
    ensures "NAXIS1" in h && "PRESCAN" in h && !(Numeric(h["NAXIS1"]) && Numeric(h["PRESCAN"])) ==>
      r == Err(UnsupportedOperand)
    ensures "NAXIS1" in h && "PRESCAN" in h && Numeric(h["NAXIS1"]) && Numeric(h["PRESCAN"]) && "POSTSCAN" !in h ==>
      r == Err(MissingKey("POSTSCAN"))
    ensures r.Ok? <==>
      "NAXIS1" in h && "PRESCAN" in h && "POSTSCAN" in h &&
      Numeric(h["NAXIS1"]) && Numeric(h["PRESCAN"]) && Numeric(h["POSTSCAN"])
    ensures r.Ok? ==>
      Numeric(r.value) && AsReal(r.value) == AsReal(h["NAXIS1"]) - AsReal(h["PRESCAN"]) - AsReal(h["POSTSCAN"])
    ensures r.Ok? ==> (r.value.Int? <==> h["NAXIS1"].Int? && h["PRESCAN"].Int? && h["POSTSCAN"].Int?)
    ensures IntField(h, "NAXIS1").Ok? && IntField(h, "PRESCAN").Ok? && IntField(h, "POSTSCAN").Ok? ==>
      r == Ok(Int(h["NAXIS1"].i - h["PRESCAN"].i - h["POSTSCAN"].i))
  {
    match Lookup(h, "NAXIS1")
    case Err(e) => Err(e)
    case Ok(n1) =>
      match Lookup(h, "PRESCAN")
      case Err(e) => Err(e)
      case Ok(pre) =>
        match Difference(n1, pre)
        case Err(e) => Err(e)
        case Ok(d) =>
          match Lookup(h, "POSTSCAN")
          case Err(e) => Err(e)
          case Ok(post) => Difference(d, post)
  }

  /** `width` reads header[0] only, whatever the later headers say. */
  function FrameWidth(hs: seq<Header>): (r: Result<Value>)
    ensures hs == [] ==> r == Err(NoHeaderFound)
    ensures hs != [] ==> r == HeaderWidth(hs[0])
  {
    if hs == [] then Err(NoHeaderFound) else HeaderWidth(hs[0])
  }

  /** `header[0][key]`: what `height`, `prescanPix` and `overscanPix` read. */
  function FirstHeaderField(hs: seq<Header>, key: string): (r: Result<Value>)
    ensures hs == [] ==> r == Err(NoHeaderFound)
    ensures hs != [] && key in hs[0] ==> r == Ok(hs[0][key])
    ensures hs != [] && key !in hs[0] ==> r == Err(MissingKey(key))
  {
    if hs == [] then Err(NoHeaderFound) else Lookup(hs[0], key)
  }

  /** `height`, header[0]['NAXIS2']. */
  function FrameHeight(hs: seq<Header>): (r: Result<Value>)
    ensures hs == [] ==> r == Err(NoHeaderFound)
    ensures hs != [] && "NAXIS2" in hs[0] ==> r == Ok(hs[0]["NAXIS2"])
    ensures hs != [] && "NAXIS2" !in hs[0] ==> r == Err(MissingKey("NAXIS2"))
  {
    FirstHeaderField(hs, "NAXIS2")
  }

  /** `prescanPix`, header[0]['PRESCAN']. */
  function PrescanPix(hs: seq<Header>): (r: Result<Value>)
    ensures hs == [] ==> r == Err(NoHeaderFound)
    ensures hs != [] && "PRESCAN" in hs[0] ==> r == Ok(hs[0]["PRESCAN"])
    ensures hs != [] && "PRESCAN" !in hs[0] ==> r == Err(MissingKey("PRESCAN"))
  {
    FirstHeaderField(hs, "PRESCAN")
  }

  /** `overscanPix`, header[0]['POSTSCAN']. */
  function OverscanPix(hs: seq<Header>): (r: Result<Value>)
    ensures hs == [] ==> r == Err(NoHeaderFound)
    ensures hs != [] && "POSTSCAN" in hs[0] ==> r == Ok(hs[0]["POSTSCAN"])
    ensures hs != [] && "POSTSCAN" !in hs[0] ==> r == Err(MissingKey("POSTSCAN"))
  {
    FirstHeaderField(hs, "POSTSCAN")
  }

  /** `dim`, the pair (width, height), evaluated width first. */
  function Dim(hs: seq<Header>): (r: Result<(Value, Value)>)
    ensures r.Ok? <==> FrameWidth(hs).Ok? && FrameHeight(hs).Ok?
    ensures r.Ok? ==> r.value == (FrameWidth(hs).value, FrameHeight(hs).value)
    ensures r.Err? && FrameWidth(hs).Err? ==> r.error == FrameWidth(hs).error
  {
    match FrameWidth(hs)
    case Err(e) => Err(e)
    case Ok(w) =>
      match FrameHeight(hs)
      case Err(e) => Err(e)
      case Ok(v) => Ok((w, v))
  }

  /** With sensible scan widths, the three regions have PRESCAN, width and
      POSTSCAN columns and together are exactly the transposed array. */
  lemma SplitGeometry(h: Header, data: Plane, pre: int, n1: int, post: int)
    requires WellFormed(data)
    requires "PRESCAN" in h && h["PRESCAN"] == Int(pre)
    requires "NAXIS1" in h && h["NAXIS1"] == Int(n1)
    requires "POSTSCAN" in h && h["POSTSCAN"] == Int(post)
    requires 0 <= pre && 0 <= post && pre + post <= n1 && Width(data) == n1
    ensures var r := SplitRegions(h, data);
      r.Ok? &&
      Width(r.value.prescan) == pre &&
      Width(r.value.image) == n1 - pre - post &&
      Width(r.value.overscan) == post &&
      FrameWidth([h]) == Ok(Int(Width(r.value.image))) &&
      r.value.prescan.columns + r.value.image.columns + r.value.overscan.columns == data.columns
  {
    SlicesPartition(data.columns, pre, n1 - post);
  }

  // ---------------------------------------------------------------------
  // Frames and their combination

  /** What a frame holds: one name and one header per raw frame it combines,
      in combination order, and its three regions. */
  datatype FrameData = FrameData(name: seq<string>, header: seq<Header>, prescan: Plane, image: Plane, overscan: Plane)

  datatype Part = Prescan | Active | Overscan

  function Region(f: FrameData, part: Part): Plane {
    match part
    case Prescan => f.prescan
    case Active => f.image
    case Overscan => f.overscan
  }

  /** What every frame satisfies: as many names as headers, at least one,
      and rectangular regions. */
  predicate Valid(f: FrameData) {
    |f.name| == |f.header| && |f.header| >= 1 &&
    WellFormed(f.prescan) && WellFormed(f.image) && WellFormed(f.overscan)
  }

  /** The frames that can exist. */
  type ValidFrame = f: FrameData | Valid(f)
    witness FrameData([""], [map[]], Plane([], 0), Plane([], 0), Plane([], 0))

  /** `numbImagesCombined`, the number of raw frames combined into f. */
  function NumbImagesCombined(f: ValidFrame): (n: nat)
    ensures n >= 1 && n == |f.name|
  {
    |f.header|
  }

  /** A frame read from `path` with header h and transposed data. The two
      correction flags have no effect: the correction step is empty. */
  function Load(path: string, h: Header, data: Plane, subtractOverscans: bool, removeCosmicRays: bool): (r: Result<ValidFrame>)
    requires WellFormed(data)
    ensures r.Ok? <==> SplitRegions(h, data).Ok?
    ensures r.Err? ==> r.error == SplitRegions(h, data).error
    ensures r.Ok? ==>
      NumbImagesCombined(r.value) == 1 && r.value.name == [FrameName(path)] && r.value.header == [h]
    ensures r.Ok? ==>
      var g := SplitRegions(h, data).value;
      r.value.prescan == g.prescan && r.value.image == g.image && r.value.overscan == g.overscan
  {
    match SplitRegions(h, data)
    case Err(e) => Err(e)
    case Ok(g) => Ok(FrameData([FrameName(path)], [h], g.prescan, g.image, g.overscan))
  }

  /** A frame loaded from a header with sensible scan widths has PRESCAN
      prescan columns, `width` image columns and POSTSCAN overscan columns,
      which together are the whole transposed array. */
  lemma LoadGeometry(path: string, h: Header, data: Plane, subtractOverscans: bool, removeCosmicRays: bool,
                     pre: int, n1: int, post: int)
    requires WellFormed(data)
    requires "PRESCAN" in h && h["PRESCAN"] == Int(pre)
    requires "NAXIS1" in h && h["NAXIS1"] == Int(n1)
    requires "POSTSCAN" in h && h["POSTSCAN"] == Int(post)
    requires 0 <= pre && 0 <= post && pre + post <= n1 && Width(data) == n1
    ensures var r := Load(path, h, data, subtractOverscans, removeCosmicRays);
      r.Ok? &&
      Width(r.value.prescan) == pre &&
      Width(r.value.image) == n1 - pre - post &&
      Width(r.value.overscan) == post &&
      FrameWidth(r.value.header) == Ok(Int(Width(r.value.image))) &&
      r.value.prescan.columns + r.value.image.columns + r.value.overscan.columns == data.columns
  {
    SplitGeometry(h, data, pre, n1, post);
  }

  /** All three regions have the same shapes in a and b. */
  predicate Matches(a: FrameData, b: FrameData) {
    SameShape(a.prescan, b.prescan) && SameShape(a.image, b.image) && SameShape(a.overscan, b.overscan)
  }

  datatype Op = Add | Sub

  function Apply(op: Op, x: Plane, y: Plane): (r: Plane)
    requires WellFormed(x) && WellFormed(y) && SameShape(x, y)
    ensures WellFormed(r) && SameShape(r, x)
  {
    match op
    case Add => Plus(x, y)
    case Sub => Minus(x, y)
  }

  /** `self + other` / `self - other`: a copy of self that gains other's
      first name and first header and whose regions are combined element-wise,
      or None (Python's `None`) when a region's shape differs. */
  function Combine(a: ValidFrame, b: ValidFrame, op: Op): (r: Option<ValidFrame>)
    ensures r.Some? <==> Matches(a, b)
    ensures r.Some? ==> Matches(r.value, a)
    ensures r.Some? ==> r.value.name == a.name + [b.name[0]] && r.value.header == a.header + [b.header[0]]
    ensures r.Some? ==> NumbImagesCombined(r.value) == NumbImagesCombined(a) + 1
    ensures r.Some? ==> forall part :: Region(r.value, part) == Apply(op, Region(a, part), Region(b, part))
  {
    if Matches(a, b) then
      Some(FrameData(a.name + [b.name[0]], a.header + [b.header[0]],
                     Apply(op, a.prescan, b.prescan), Apply(op, a.image, b.image), Apply(op, a.overscan, b.overscan)))
    else None
  }

  /** Adding a frame and then subtracting it restores every region. */
  lemma AddThenSub(a: ValidFrame, b: ValidFrame)
    requires Matches(a, b)
    ensures Combine(a, b, Add).Some?
    ensures var s := Combine(a, b, Add).value;
      Combine(s, b, Sub).Some? &&
      Combine(s, b, Sub).value.prescan == a.prescan &&
      Combine(s, b, Sub).value.image == a.image &&
      Combine(s, b, Sub).value.overscan == a.overscan &&
      Combine(s, b, Sub).value.name == a.name + [b.name[0], b.name[0]]
  {
    var s := Combine(a, b, Add).value;
    assert s.prescan == Plus(a.prescan, b.prescan) by { assert Region(s, Prescan) == Apply(Add, a.prescan, b.prescan); }
    assert s.image == Plus(a.image, b.image) by { assert Region(s, Active) == Apply(Add, a.image, b.image); }
    assert s.overscan == Plus(a.overscan, b.overscan) by { assert Region(s, Overscan) == Apply(Add, a.overscan, b.overscan); }
    var d := Combine(s, b, Sub).value;
    assert d.prescan == Minus(s.prescan, b.prescan) by { assert Region(d, Prescan) == Apply(Sub, s.prescan, b.prescan); }
    assert d.image == Minus(s.image, b.image) by { assert Region(d, Active) == Apply(Sub, s.image, b.image); }
    assert d.overscan == Minus(s.overscan, b.overscan) by { assert Region(d, Overscan) == Apply(Sub, s.overscan, b.overscan); }
    MinusPlus(a.prescan, b.prescan);
    MinusPlus(a.image, b.image);
    MinusPlus(a.overscan, b.overscan);
  }

  /** Subtracting the same frame twice (no "already corrected" guard)
      removes it twice from every sample. */
  lemma SubTwice(a: ValidFrame, b: ValidFrame, part: Part, x: int, y: int)
    requires Matches(a, b)
    requires InPlane(Region(a, part), x, y)
    ensures Combine(a, b, Sub).Some?
    ensures var once := Combine(a, b, Sub).value;
      Combine(once, b, Sub).Some? &&
      Region(Combine(once, b, Sub).value, part).columns[x][y] ==
        Region(a, part).columns[x][y] - 2.0 * Region(b, part).columns[x][y]
  {
    var once := Combine(a, b, Sub).value;
    assert Region(once, part) == Minus(Region(a, part), Region(b, part));
    var twice := Combine(once, b, Sub).value;
    assert Region(twice, part) == Minus(Region(once, part), Region(b, part));
    assert InPlane(Region(once, part), x, y);
  }

  // ---------------------------------------------------------------------
  // Averaging

  /** The first name of every frame, in order. */
  function FirstNames(fs: seq<ValidFrame>): (r: seq<string>)
    ensures |r| == |fs| && forall i :: 0 <= i < |fs| ==> r[i] == fs[i].name[0]
  {
    seq(|fs|, i requires 0 <= i < |fs| => fs[i].name[0])
  }

  /** The first header of every frame, in order. */
  function FirstHeaders(fs: seq<ValidFrame>): (r: seq<Header>)
    ensures |r| == |fs| && forall i :: 0 <= i < |fs| ==> r[i] == fs[i].header[0]
  {
    seq(|fs|, i requires 0 <= i < |fs| => fs[i].header[0])
  }

  /** Every frame has the region shapes of the first. */
  predicate AllMatch(fs: seq<ValidFrame>)
    requires |fs| >= 1
  {
    forall i :: 0 <= i < |fs| ==> Matches(fs[0], fs[i])
  }

  /** The column x, row y samples of one region, summed over the frames. */
  function SumAt(fs: seq<ValidFrame>, part: Part, x: int, y: int): real
    requires forall i :: 0 <= i < |fs| ==> InPlane(Region(fs[i], part), x, y)
  {
    if fs == [] then 0.0
    else
      assert InPlane(Region(fs[|fs| - 1], part), x, y);
      SumAt(fs[..|fs| - 1], part, x, y) + Region(fs[|fs| - 1], part).columns[x][y]
  }

  /** `F1 + F2 + ... + Fn`, folded from the left with `__add__`. */
  function Sum(fs: seq<ValidFrame>): (r: Option<ValidFrame>)
    requires |fs| >= 1
    ensures r.Some? ==> Matches(r.value, fs[0])
  {
    if |fs| == 1 then Some(fs[0])
    else
      match Sum(fs[..|fs| - 1])
      case None => None
      case Some(acc) => Combine(acc, Last(fs), Add)
  }

  /** Every region divided by n. */
  function Divided(f: ValidFrame, n: nat): (r: ValidFrame)
    requires n > 0
    ensures Matches(r, f) && r.name == f.name && r.header == f.header
    ensures forall part, x, y :: InPlane(Region(f, part), x, y) ==>
      Region(r, part).columns[x][y] == Region(f, part).columns[x][y] / (n as real)
  {
    FrameData(f.name, f.header, Divide(f.prescan, n), Divide(f.image, n), Divide(f.overscan, n))
  }

  /** `avg(F1, ..., Fn)` as its documentation describes it: add all the
      frames, then divide the three regions by the number of images combined.
      No frame, or frames of different shapes, give None. */
  function Average(fs: seq<ValidFrame>): (r: Option<ValidFrame>)
    ensures r.Some? <==> fs != [] && Sum(fs).Some?
    ensures r.Some? ==> Matches(r.value, fs[0])
    ensures r.Some? ==> r.value.name == Sum(fs).value.name && r.value.header == Sum(fs).value.header
  {
    if fs == [] then None
    else
      match Sum(fs)
      case None => None
      case Some(s) => Some(Divided(s, NumbImagesCombined(s)))
  }

  /** The sum exists exactly when all frames have the first frame's shapes. */
  lemma {:induction false} SumDefined(fs: seq<ValidFrame>)
    requires |fs| >= 1
    ensures Sum(fs).Some? <==> AllMatch(fs)
  {
    if |fs| > 1 {
      var init := fs[..|fs| - 1];
      SumDefined(init);
      assert init[0] == fs[0];
      assert AllMatch(fs) <==> AllMatch(init) && Matches(fs[0], Last(fs)) by {
        assert forall i :: 0 <= i < |init| ==> init[i] == fs[i];
      }
    }
  }

  /** Once a prefix fails to add up, so does the whole sequence. */
  lemma SumPrefixNone(fs: seq<ValidFrame>, k: nat)
    requires 1 <= k <= |fs| && Sum(fs[..k]).None?
    ensures Sum(fs).None?
  {
    var init := fs[..k];
    SumDefined(init);
    var i :| 0 <= i < k && !Matches(init[0], init[i]);
    assert init[0] == fs[0] && init[i] == fs[i];
    SumDefined(fs);
  }

  /** The sum keeps the first frame's provenance and gains the first name
      and header of each later frame, in order. */
  lemma {:induction false} SumProvenance(fs: seq<ValidFrame>)
    requires |fs| >= 1
    requires Sum(fs).Some?
    ensures Sum(fs).value.name == fs[0].name + FirstNames(fs[1..])
    ensures Sum(fs).value.header == fs[0].header + FirstHeaders(fs[1..])
  {
    if |fs| > 1 {
      var init := fs[..|fs| - 1];
      SumProvenance(init);
      assert init[0] == fs[0];
      FirstsAppend(fs);
    } else {
      assert FirstNames(fs[1..]) == [];
      assert FirstHeaders(fs[1..]) == [];
    }
  }

  /** The first names and headers of all but the first frame, split off the
      last one. */
  lemma FirstsAppend(fs: seq<ValidFrame>)
    requires |fs| >= 2
    ensures FirstNames(fs[1..]) == FirstNames(fs[..|fs| - 1][1..]) + [Last(fs).name[0]]
    ensures FirstHeaders(fs[1..]) == FirstHeaders(fs[..|fs| - 1][1..]) + [Last(fs).header[0]]
  {
    var rest, init := fs[1..], fs[..|fs| - 1][1..];
    assert rest == init + [Last(fs)];
    forall i | 0 <= i < |init| ensures FirstNames(rest)[i] == FirstNames(init)[i] && FirstHeaders(rest)[i] == FirstHeaders(init)[i] {
      assert rest[i] == init[i];
    }
  }

  /** Every sample of the sum is the sum of that sample over the frames. */
  lemma {:induction false} SumValues(fs: seq<ValidFrame>, part: Part, x: int, y: int)
    requires |fs| >= 1
    requires Sum(fs).Some? && InPlane(Region(fs[0], part), x, y)
    ensures forall i :: 0 <= i < |fs| ==> InPlane(Region(fs[i], part), x, y)
    ensures Region(Sum(fs).value, part).columns[x][y] == SumAt(fs, part, x, y)
  {
    SumDefined(fs);
    assert forall i :: 0 <= i < |fs| ==> InPlane(Region(fs[i], part), x, y) by {
      forall i | 0 <= i < |fs| ensures InPlane(Region(fs[i], part), x, y) {
        assert Matches(fs[0], fs[i]);
      }
    }
    var init := fs[..|fs| - 1];
    if |fs| == 1 {
      assert init == [];
    } else {
      assert init[0] == fs[0];
      SumValues(init, part, x, y);
      var acc := Sum(init).value;
      assert Region(Sum(fs).value, part) == Plus(Region(acc, part), Region(Last(fs), part));
      assert InPlane(Region(acc, part), x, y);
    }
  }

  /** Averaging exists exactly when there is a frame and all frames match. */
  lemma {:induction false} AverageDefined(fs: seq<ValidFrame>)
    ensures Average(fs).Some? <==> |fs| >= 1 && AllMatch(fs)
  {
    if |fs| >= 1 {
      SumDefined(fs);
    }
  }

  /** Averaging single-header frames: names and headers come in argument
      order, one per frame, and every sample is the sum over the frames
      divided by their number. */
  lemma {:induction false} AverageOfSingles(fs: seq<ValidFrame>, part: Part, x: int, y: int)
    requires |fs| >= 1 && AllMatch(fs)
    requires forall i :: 0 <= i < |fs| ==> |fs[i].header| == 1
    requires InPlane(Region(fs[0], part), x, y)
    ensures Average(fs).Some?
    ensures Average(fs).value.name == FirstNames(fs)
    ensures Average(fs).value.header == FirstHeaders(fs)
    ensures NumbImagesCombined(Average(fs).value) == |fs|
    ensures forall i :: 0 <= i < |fs| ==> InPlane(Region(fs[i], part), x, y)
    ensures Region(Average(fs).value, part).columns[x][y] == SumAt(fs, part, x, y) / (|fs| as real)
  {
    SumDefined(fs);
    var s := Sum(fs).value;
    SumProvenance(fs);
    SumValues(fs, part, x, y);
    FirstsOfSingles(fs);
    assert |s.header| == |fs|;
    var avg := Divided(s, |fs|);
    assert Average(fs) == Some(avg);
    assert InPlane(Region(s, part), x, y);
  }

  /** The average of any matching frames, raw or already combined: the
      divisor is the header count of the sum, which is the first frame's
      header count plus one for each later frame (`+` keeps only the first
      header of its right operand), and every sample is the sum over the
      frames divided by it. */
  lemma {:induction false} AverageOfCombined(fs: seq<ValidFrame>, part: Part, x: int, y: int)
    requires |fs| >= 1 && AllMatch(fs)
    requires InPlane(Region(fs[0], part), x, y)
    ensures Average(fs).Some?
    ensures NumbImagesCombined(Average(fs).value) == |fs[0].header| + |fs| - 1
    ensures forall i :: 0 <= i < |fs| ==> InPlane(Region(fs[i], part), x, y)
    ensures Region(Average(fs).value, part).columns[x][y] == SumAt(fs, part, x, y) / ((|fs[0].header| + |fs| - 1) as real)
  {
    SumDefined(fs);
    var s := Sum(fs).value;
    SumProvenance(fs);
    SumValues(fs, part, x, y);
    assert |s.header| == |fs[0].header| + |fs| - 1;
    var avg := Divided(s, NumbImagesCombined(s));
    assert Average(fs) == Some(avg);
    assert InPlane(Region(s, part), x, y);
  }

  /** A single-header frame followed by the first names and headers of the
      rest lists the first names and headers of all. */
  lemma FirstsOfSingles(fs: seq<ValidFrame>)
    requires |fs| >= 1 && |fs[0].header| == 1
    ensures fs[0].name + FirstNames(fs[1..]) == FirstNames(fs)
    ensures fs[0].header + FirstHeaders(fs[1..]) == FirstHeaders(fs)
  {
    var names := fs[0].name + FirstNames(fs[1..]);
    forall i | 0 <= i < |fs| ensures names[i] == fs[i].name[0] {
      if i > 0 { assert fs[1..][i - 1] == fs[i]; }
    }
    var headers := fs[0].header + FirstHeaders(fs[1..]);
    forall i | 0 <= i < |fs| ensures headers[i] == fs[i].header[0] {
      if i > 0 { assert fs[1..][i - 1] == fs[i]; }
    }
  }

  /** n copies of one sample sum to n times it. */
  lemma {:induction false} SumOfCopies(fs: seq<ValidFrame>, c: ValidFrame, part: Part, x: int, y: int)
    requires InPlane(Region(c, part), x, y)
    requires forall i :: 0 <= i < |fs| ==> fs[i] == c
    ensures SumAt(fs, part, x, y) == (|fs| as real) * Region(c, part).columns[x][y]
  {
    if fs != [] {
      SumOfCopies(fs[..|fs| - 1], c, part, x, y);
    }
  }

  /** The average of n copies of one raw frame has that frame's samples but
      n names and headers. */
  lemma AverageOfCopies(c: ValidFrame, n: nat)
    requires |c.header| == 1 && n >= 1
    ensures var fs := seq(n, i => c);
      Average(fs).Some? &&
      NumbImagesCombined(Average(fs).value) == n &&
      Average(fs).value.prescan == c.prescan &&
      Average(fs).value.image == c.image &&
      Average(fs).value.overscan == c.overscan
  {
    var fs := seq(n, i => c);
    assert AllMatch(fs);
    AverageDefined(fs);
    SumDefined(fs);
    SumProvenance(fs);
    AverageOfCopiesRegion(c, fs, Prescan);
    AverageOfCopiesRegion(c, fs, Active);
    AverageOfCopiesRegion(c, fs, Overscan);
  }

  /** `avg` as the code is written: `sum(args)` starts from the integer 0,
      and `0 + frame` raises TypeError because a frame has no `__radd__`;
      with no argument `sum` returns 0, which has no prescan region. No
      call produces an average (and the three divisions are never assigned
      back). Average is the documented behaviour the rest of the model uses. */
  function AvgAsWritten(fs: seq<ValidFrame>): (r: Result<ValidFrame>)
    ensures r.Err?
    ensures r.error == NoAttribute <==> fs == []
    ensures fs != [] ==> r == Err(UnsupportedOperand)
  {
    if fs == [] then Err(NoAttribute) else Err(UnsupportedOperand)
  }

  /** Averaging one raw frame gives back its samples, while the code as
      written fails on it. */
  lemma AvgAsWrittenFails(c: ValidFrame)
    requires |c.header| == 1
    ensures AvgAsWritten([c]) == Err(UnsupportedOperand)
    ensures Average([c]).Some? && Average([c]).value.image == c.image
  {
    AverageOfCopies(c, 1);
    assert seq(1, i => c) == [c];
  }

  lemma {:induction false} AverageOfCopiesRegion(c: ValidFrame, fs: seq<ValidFrame>, part: Part)
    requires |c.header| == 1 && |fs| >= 1
    requires forall i :: 0 <= i < |fs| ==> fs[i] == c
    ensures AllMatch(fs) && Average(fs).Some?
    ensures Region(Average(fs).value, part) == Region(c, part)
  {
    assert AllMatch(fs);
    AverageDefined(fs);
    SumDefined(fs);
    var avg := Average(fs).value;
    forall x, y | InPlane(Region(c, part), x, y)
      ensures Region(avg, part).columns[x][y] == Region(c, part).columns[x][y]
    {
      AverageOfCopiesAt(c, fs, part, x, y);
    }
    Extensional(Region(avg, part), Region(c, part));
  }

  lemma {:induction false} AverageOfCopiesAt(c: ValidFrame, fs: seq<ValidFrame>, part: Part, x: int, y: int)
    requires |c.header| == 1 && |fs| >= 1
    requires forall i :: 0 <= i < |fs| ==> fs[i] == c
    requires InPlane(Region(c, part), x, y)
    ensures AllMatch(fs) && Average(fs).Some?
    ensures Region(Average(fs).value, part).columns[x][y] == Region(c, part).columns[x][y]
  {
    assert AllMatch(fs);
    assert InPlane(Region(fs[0], part), x, y);
    AverageOfSingles(fs, part, x, y);
    MeanOfCopies(fs, c, part, x, y);
  }

  /** The mean of n copies of one sample is that sample. */
  lemma {:induction false} MeanOfCopies(fs: seq<ValidFrame>, c: ValidFrame, part: Part, x: int, y: int)
    requires |fs| >= 1 && InPlane(Region(c, part), x, y)
    requires forall i :: 0 <= i < |fs| ==> fs[i] == c
    ensures SumAt(fs, part, x, y) / (|fs| as real) == Region(c, part).columns[x][y]
  {
    SumOfCopies(fs, c, part, x, y);
    var n := |fs| as real;
    var v := Region(c, part).columns[x][y];
    var total := SumAt(fs, part, x, y);
    assert total == n * v;
    CancelCount(n, v, total, total / n);
  }

  lemma CancelCount(n: real, v: real, total: real, mean: real)
    requires n > 0.0 && total == n * v && mean == total / n
    ensures mean == v
  {
  }

  // ---------------------------------------------------------------------
  // Header-derived properties

  /** The header-derived properties of a frame. */
  datatype Property = Airmass | Date | Dec | ExpTime | Filter | Gain | HourAngle | PlateScale | ObsType | Ra

  /** The FITS keyword each property reads. */
  function Key(p: Property): string {
    match p
    case Airmass => "AIRMASS"
    case Date => "DATE-OBS"
    case Dec => "TELDEC"
    case ExpTime => "EXPTIME"
    case Filter => "FILTERS"
    case Gain => "GAIN"
    case HourAngle => "HA"
    case PlateScale => "SCALE"
    case ObsType => "OBSTYPE"
    case Ra => "TELRA"
  }

  /** Each property reads a keyword of its own. */
  lemma KeysDistinct(p: Property, q: Property)
    requires p != q
    ensures Key(p) != Key(q)
  {
  }

  /** A property read from one header; `date` has every 'T' replaced by two spaces. */
  function Field(h: Header, p: Property): (r: Result<Value>)
    ensures Key(p) !in h ==> r == Err(MissingKey(Key(p)))
    ensures p != Date && Key(p) in h ==> r == Ok(h[Key(p)])
    ensures p == Date && Key(p) in h ==> (r.Ok? <==> h[Key(p)].Text?)
    ensures p == Date && Key(p) in h && !h[Key(p)].Text? ==> r == Err(NotText(Key(p)))
    ensures p == Date && r.Ok? ==> r.value.Text? && 'T' !in r.value.s
    ensures p == Date && r.Ok? ==> r.value == Text(ReplaceAll(h[Key(p)].s, "T", "  "))
  {
    if Key(p) !in h then Err(MissingKey(Key(p)))
    else if p == Date then
      match h[Key(p)]
      case Text(s) => Ok(Text(ReplaceAll(s, "T", "  ")))
      case _ => Err(NotText(Key(p)))
    else Ok(h[Key(p)])
  }

  /** The list comprehension `[header[i][KEY] for i in ...]`: one value per
      header in header order, or the error of the first header that fails. */
  function Fields(hs: seq<Header>, p: Property): (r: Result<seq<Value>>)
    ensures r.Ok? <==> forall i :: 0 <= i < |hs| ==> Field(hs[i], p).Ok?
    ensures r.Ok? ==> |r.value| == |hs| && forall i :: 0 <= i < |hs| ==> r.value[i] == Field(hs[i], p).value
    ensures r.Err? ==>
      exists i :: 0 <= i < |hs| && Field(hs[i], p) == Err(r.error) && forall j :: 0 <= j < i ==> Field(hs[j], p).Ok?
  {
    if hs == [] then Ok([])
    else
      match Field(hs[0], p)
      case Err(e) => Err(e)
      case Ok(v) =>
        match Fields(hs[1..], p)
        case Err(e) =>
          var k :| 0 <= k < |hs[1..]| && Field(hs[1..][k], p) == Err(e) &&
            forall j :: 0 <= j < k ==> Field(hs[1..][j], p).Ok?;
          assert Field(hs[k + 1], p) == Err(e);
          assert forall j :: 0 <= j < k + 1 ==> Field(hs[j], p).Ok? by {
            forall j | 0 <= j < k + 1 ensures Field(hs[j], p).Ok? {
              if j > 0 { assert hs[j] == hs[1..][j - 1]; }
            }
          }
          Err(e)
        case Ok(vs) =>
          var values := [v] + vs;
          assert forall i :: 0 <= i < |hs| ==> Field(hs[i], p).Ok? && values[i] == Field(hs[i], p).value by {
            forall i | 0 <= i < |hs| ensures Field(hs[i], p).Ok? && values[i] == Field(hs[i], p).value {
              if i > 0 { assert hs[i] == hs[1..][i - 1]; }
            }
          }
          Ok(values)
  }

  /** What a property accessor returns: the value itself for a single
      frame, one value per header for a combined one. */
  datatype Reading = Scalar(v: Value) | PerHeader(vs: seq<Value>)

  /** The accessors `airmass`, `date`, `dec`, `expTime`, `filter`, `gain`,
      `hourAngle`, `plateScale`, `obsType` and `ra`. */
  function Read(hs: seq<Header>, p: Property): (r: Result<Reading>)
    ensures r == Err(NoHeaderFound) <==> hs == []
    ensures hs != [] ==> (r.Ok? <==> forall i :: 0 <= i < |hs| ==> Field(hs[i], p).Ok?)
    ensures |hs| == 1 && r.Ok? ==> r.value == Scalar(Field(hs[0], p).value)
    ensures |hs| > 1 && r.Ok? ==>
      r.value.PerHeader? && |r.value.vs| == |hs| && forall i :: 0 <= i < |hs| ==> r.value.vs[i] == Field(hs[i], p).value
  {
    if |hs| == 1 then
      match Field(hs[0], p)
      case Err(e) => Err(e)
      case Ok(v) => Ok(Scalar(v))
    else if |hs| > 1 then
      match Fields(hs, p)
      case Err(e) => Err(e)
      case Ok(vs) => Ok(PerHeader(vs))
    else Err(NoHeaderFound)
  }

  /** Every date a frame reports is text without a 'T'. */
  lemma DatesHaveNoT(hs: seq<Header>, i: nat)
    requires Read(hs, Date).Ok? && i < |hs|
    ensures var v := if |hs| == 1 then Read(hs, Date).value.v else Read(hs, Date).value.vs[i];
      v.Text? && 'T' !in v.s
  {
    assert Field(hs[i], Date).Ok?;
  }

  /** After `a + b` or `a - b`, a property reads a's values followed by the
      value from b's first header, so a property of a combination of three
      raw frames lists their three values in combination order. */
  lemma ReadAfterCombine(a: ValidFrame, b: ValidFrame, op: Op, p: Property)
    requires Matches(a, b)
    requires Fields(a.header, p).Ok? && Field(b.header[0], p).Ok?
    ensures var c := Combine(a, b, op).value;
      Read(c.header, p) == Ok(PerHeader(Fields(a.header, p).value + [Field(b.header[0], p).value]))
  {
    var c := Combine(a, b, op).value;
    var want := Fields(a.header, p).value + [Field(b.header[0], p).value];
    assert forall i :: 0 <= i < |a.header| ==> c.header[i] == a.header[i];
    assert c.header[|a.header|] == b.header[0];
    assert Read(c.header, p).Ok?;
    assert Read(c.header, p).value.vs == want;
  }
}
