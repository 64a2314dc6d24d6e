/** The objects of DCTRedux.py: a frame object (`DataEnc` with its role
    subclasses `Bias`, `Flat` and `Image`), whose combination operators
    deep-copy it and then update the copy field by field, and the three
    class-level counters of live objects per role. The frame operations
    that compute data are proved against the value model in Frames; the
    counters and the copy constructor are stated on the object state. */
module FrameObjects {
  import opened Planes
  import opened Frames
  import opened Outcomes

  /** The subclass a frame object belongs to. */
  datatype Role = Bias | Flat | Image

  /** The class-level counters `Bias.__numbBias`, `Flat.__numbFlat` and
      `Image.__numbImages`, zero at start. */
  class Registry {
    var numbBias: int
    var numbFlat: int
    var numbImages: int

    constructor ()
      ensures Count(Bias) == 0 && Count(Flat) == 0 && Count(Image) == 0
    {
      numbBias, numbFlat, numbImages := 0, 0, 0;
    }

    /** `getNumbBias()`, `getNumbFlat()` and `getNumbImagesOpened()`. */
    function Count(role: Role): (n: int)
      reads this
      ensures role == Bias ==> n == numbBias
      ensures role == Flat ==> n == numbFlat
      ensures role == Image ==> n == numbImages
    {
      match role
      case Bias => numbBias
      case Flat => numbFlat
      case Image => numbImages
    }

    /** The increment at the end of each subclass's `__init__`. */
    method Opened(role: Role)
      modifies this
      ensures Count(role) == old(Count(role)) + 1
      ensures forall other :: other != role ==> Count(other) == old(Count(other))
    {
      match role
      case Bias => numbBias := numbBias + 1;
      case Flat => numbFlat := numbFlat + 1;
      case Image => numbImages := numbImages + 1;
    }

    /** The decrement of each subclass's `__del__`, as an explicit release of
        one frame object. */
    method Release(f: Frame)
      modifies this
      ensures Count(f.role) == old(Count(f.role)) - 1
      ensures forall other :: other != f.role ==> Count(other) == old(Count(other))
    {
      match f.role
      case Bias => numbBias := numbBias - 1;
      case Flat => numbFlat := numbFlat - 1;
      case Image => numbImages := numbImages - 1;
    }
  }

  /** A frame object: its names, headers and the three region arrays. */
  class Frame {
    const role: Role
    var name: seq<string>
    var header: seq<Header>
    var prescan: Plane
    var image: Plane
    var overscan: Plane

    /** The value this object holds. */
    function Data(): FrameData
      reads this
    {
      FrameData(name, header, prescan, image, overscan)
    }

    predicate Valid()
      reads this
    {
      Frames.Valid(Data())
    }

    /** `__init__` of a role subclass, given the header and the data array
        that reading the file yields: the name from the path, the header, the
        three regions of the transposed array, then the role's counter. */
    constructor (role: Role, path: string, h: Header, rows: seq<seq<real>>, width: nat,
                 subtractOverscans: bool, removeCosmicRays: bool, registry: Registry)
      requires forall y :: 0 <= y < |rows| ==> |rows[y]| == width
      requires Load(path, h, Transpose(rows, width), subtractOverscans, removeCosmicRays).Ok?
      modifies registry
      ensures this.role == role && Valid()
      ensures Data() == Load(path, h, Transpose(rows, width), subtractOverscans, removeCosmicRays).value
      ensures registry.Count(role) == old(registry.Count(role)) + 1
      ensures forall other :: other != role ==> registry.Count(other) == old(registry.Count(other))
    {
      var data := Transpose(rows, width);
      var regions := SplitRegions(h, data).value;
      this.role := role;
      name := [FrameName(path)];
      header := [h];
      prescan, image, overscan := regions.prescan, regions.image, regions.overscan;
      new;
      registry.Opened(role);
    }

    /** Constructing a frame object, including the failure that escapes
        `__init__` when the header lacks an integer PRESCAN, NAXIS1 or
        POSTSCAN; then no counter moves. */
    static method Open(role: Role, path: string, h: Header, rows: seq<seq<real>>, width: nat,
                       subtractOverscans: bool, removeCosmicRays: bool, registry: Registry)
      returns (r: Result<Frame>)
      requires forall y :: 0 <= y < |rows| ==> |rows[y]| == width
      modifies registry
      ensures var loaded := Load(path, h, Transpose(rows, width), subtractOverscans, removeCosmicRays);
        (r.Err? <==> loaded.Err?) &&
        (r.Err? ==> r.error == loaded.error && unchanged(registry)) &&
        (r.Ok? ==> fresh(r.value) && r.value.role == role && r.value.Valid() && r.value.Data() == loaded.value &&
                   registry.Count(role) == old(registry.Count(role)) + 1 &&
                   forall other :: other != role ==> registry.Count(other) == old(registry.Count(other)))
    {
      var loaded := Load(path, h, Transpose(rows, width), subtractOverscans, removeCosmicRays);
      if loaded.Err? {
        return Err(loaded.error);
      }
      var f := new Frame(role, path, h, rows, width, subtractOverscans, removeCosmicRays, registry);
      return Ok(f);
    }

    /** `copy.deepcopy(self)`: same role and data; no counter moves. */
    constructor Copy(src: Frame)
      ensures role == src.role && Data() == src.Data()
    {
      role := src.role;
      name, header := src.name, src.header;
      prescan, image, overscan := src.prescan, src.image, src.overscan;
    }

    /** The body shared by `__add__` and `__sub__`: deep-copy self, append
        other's first name and first header, then `+=` (or `-=`) the prescan,
        image and overscan arrays in turn; a size mismatch gives `None`.
        Neither operand is touched. */
    method Combined(other: Frame, op: Op) returns (r: Frame?)
      requires Valid() && other.Valid()
      ensures r == null <==> Combine(Data(), other.Data(), op).None?
      ensures r != null ==> fresh(r) && r.role == role && r.Valid() && r.Data() == Combine(Data(), other.Data(), op).value
    {
      var result := new Frame.Copy(this);
      result.name := result.name + [other.name[0]];
      result.header := result.header + [other.header[0]];
      if !SameShape(result.prescan, other.prescan) {
        return null;
      }
      result.prescan := Apply(op, result.prescan, other.prescan);
      if !SameShape(result.image, other.image) {
        return null;
      }
      result.image := Apply(op, result.image, other.image);
      if !SameShape(result.overscan, other.overscan) {
        return null;
      }
      result.overscan := Apply(op, result.overscan, other.overscan);
      return result;
    }

    /** `self + other`. */
    method Add(other: Frame) returns (r: Frame?)
      requires Valid() && other.Valid()
      ensures r == null <==> Combine(Data(), other.Data(), Frames.Add).None?
      ensures r != null ==> fresh(r) && r.role == role && r.Valid() && r.Data() == Combine(Data(), other.Data(), Frames.Add).value
    {
      r := Combined(other, Frames.Add);
    }

    /** `self - other`. */
    method Sub(other: Frame) returns (r: Frame?)
      requires Valid() && other.Valid()
      ensures r == null <==> Combine(Data(), other.Data(), Frames.Sub).None?
      ensures r != null ==> fresh(r) && r.role == role && r.Valid() && r.Data() == Combine(Data(), other.Data(), Frames.Sub).value
    {
      r := Combined(other, Frames.Sub);
    }

    /** `Image.subtractBias(biasFrame)`: computes `self - biasFrame`. The
        original only rebinds its local `self` to that result, so the caller's
        frame is left as it was; here the result is returned. */
    method SubtractBias(biasFrame: Frame) returns (r: Frame?)
      requires role == Image && Valid() && biasFrame.Valid()
      ensures unchanged(this)
      ensures r == null <==> Combine(Data(), biasFrame.Data(), Frames.Sub).None?
      ensures r != null ==> fresh(r) && r.role == Image && r.Valid() && r.Data() == Combine(Data(), biasFrame.Data(), Frames.Sub).value
    {
      r := Sub(biasFrame);
    }

    /** `Image.subtractFlat(flatFrame)`: like subtractBias, a subtraction
        (not a division) whose result the original drops. */
    method SubtractFlat(flatFrame: Frame) returns (r: Frame?)
      requires role == Image && Valid() && flatFrame.Valid()
      ensures unchanged(this)
      ensures r == null <==> Combine(Data(), flatFrame.Data(), Frames.Sub).None?
      ensures r != null ==> fresh(r) && r.role == Image && r.Valid() && r.Data() == Combine(Data(), flatFrame.Data(), Frames.Sub).value
    {
      r := Sub(flatFrame);
    }

    /** What subtractBias and subtractFlat evidently mean to do: replace this
        frame's names, headers and regions by those of `this - frame`. On a
        size mismatch nothing changes and false is returned. The role stays. */
    method SubtractInPlace(frame: Frame) returns (ok: bool)
      requires role == Image && Valid() && frame.Valid()
      modifies this
      ensures ok <==> Matches(old(Data()), old(frame.Data()))
      ensures ok ==> Valid() && Combine(old(Data()), old(frame.Data()), Frames.Sub) == Some(Data())
      ensures !ok ==> unchanged(this)
    {
      var d := Sub(frame);
      if d == null {
        return false;
      }
      name, header := d.name, d.header;
      prescan, image, overscan := d.prescan, d.image, d.overscan;
      return true;
    }

    /** `sum(args)`, the fold of `__add__` over the frames in argument order
        that `avg` starts with; frames of different sizes give `None`. The
        result is a new object of the first frame's role. */
    static method SumOf(frames: seq<Frame>) returns (r: Frame?)
      requires |frames| >= 1
      requires forall i :: 0 <= i < |frames| ==> frames[i].Valid()
      ensures r == null <==> Sum(DataOf(frames)).None?
      ensures r != null ==> fresh(r) && r.role == frames[0].role && r.Valid() && Sum(DataOf(frames)) == Some(r.Data())
    {
      ghost var ds := DataOf(frames);
      r := new Frame.Copy(frames[0]);
      var i := 1;
      while i < |frames|
        invariant 1 <= i <= |frames|
        invariant fresh(r) && r.Valid() && r.role == frames[0].role
        invariant Sum(ds[..i]) == Some(r.Data())
      {
        assert frames[i].Valid();
        var next := r.Add(frames[i]);
        assert ds[..i + 1][..i] == ds[..i];
        if next == null {
          SumPrefixNone(ds, i + 1);
          return null;
        }
        r := next;
        i := i + 1;
      }
      assert ds[..i] == ds;
    }

    /** `DataEnc.avg(*args)` as documented: add the frames, then divide the
        three regions by the number of images combined. No argument, or
        frames of different sizes, give `None`. The result is a new object of
        the first argument's role. */
    static method Avg(frames: seq<Frame>) returns (r: Frame?)
      requires forall i :: 0 <= i < |frames| ==> frames[i].Valid()
      ensures r == null <==> Average(DataOf(frames)).None?
      ensures r != null ==> fresh(r) && r.role == frames[0].role && r.Valid() && r.Data() == Average(DataOf(frames)).value
    {
      if |frames| == 0 {
        return null;
      }
      r := SumOf(frames);
      if r == null {
        return;
      }
      ghost var total := r.Data();
      var n := |r.header|;
      r.prescan := Divide(r.prescan, n);
      r.image := Divide(r.image, n);
      r.overscan := Divide(r.overscan, n);
      assert r.Data() == Divided(total, NumbImagesCombined(total));
    }
  }

  /** The values the frame objects hold, in order. */
  function DataOf(frames: seq<Frame>): (ds: seq<ValidFrame>)
    requires forall i :: 0 <= i < |frames| ==> frames[i].Valid()
    reads set i | 0 <= i < |frames| :: frames[i]
    ensures |ds| == |frames| && forall i :: 0 <= i < |frames| ==> ds[i] == frames[i].Data()
  {
    if frames == [] then []
    else
      assert frames[0].Valid();
      [frames[0].Data()] + DataOf(frames[1..])
  }
}
