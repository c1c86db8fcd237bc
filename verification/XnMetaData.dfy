/**
 * The frame objects of XnCppWrapper.h: OutputMetaData, MapMetaData and their image and depth forms. A
 * frame's data is either a buffer somebody else owns or the frame's own writable buffer. The members of
 * the base classes sit in one class here; `freed` remembers the buffers this frame gave back.
 */
module XnMetaData {
  import opened XnStatus
  import opened XnUInt32

  datatype PixelFormat = RGB24 | YUV422 | GRAYSCALE_8_BIT | GRAYSCALE_16_BIT | MJPEG

  function BytesPerPixel(format: PixelFormat): nat {
    match format
    case RGB24 => 3
    case YUV422 => 2
    case GRAYSCALE_8_BIT => 1
    case GRAYSCALE_16_BIT => 2
    case MJPEG => 2
  }

  /** Timestamp, frame number, resolutions and the like: all that a shallow copy takes along by value. */
  datatype Properties = Properties(
    timestamp: nat, frameID: nat, isNew: bool,
    xRes: UInt32, yRes: UInt32, xOffset: UInt32, yOffset: UInt32, fullXRes: UInt32, fullYRes: UInt32,
    fps: UInt32, zRes: UInt32, format: PixelFormat)

  /** Both resolutions are `x` by `y`, and the map is not cropped. */
  predicate HasSize(p: Properties, x: UInt32, y: UInt32) {
    && p.xRes == x && p.fullXRes == x && p.yRes == y && p.fullYRes == y
    && p.xOffset == 0 && p.yOffset == 0
  }

  /** All properties besides the dimensions and the pixel format. */
  predicate SameBesides(p: Properties, q: Properties) {
    && q.timestamp == p.timestamp && q.frameID == p.frameID && q.isNew == p.isNew
    && q.fps == p.fps && q.zRes == p.zRes
  }

  function Sized(p: Properties, x: UInt32, y: UInt32): (r: Properties)
    ensures HasSize(r, x, y) && SameBesides(p, r) && r.format == p.format
  {
    p.(xRes := x, yRes := y, fullXRes := x, fullYRes := y, xOffset := 0, yOffset := 0)
  }

  function Zeros(n: nat): (r: seq<Byte>)
    ensures |r| == n
    ensures forall i :: 0 <= i < n ==> r[i] == 0
  {
    seq(n, _ => 0)
  }

  lemma Fitting(n: nat)
    requires n < UINT32_VALUES
    ensures Wrap(n) == n
  {
  }

  class MetaData {
    var props: Properties
    var data: array?<Byte>
    var dataSize: UInt32
    var allocatedData: array?<Byte>
    var allocatedSize: UInt32
    ghost var freed: set<array<Byte>>

    /** The frame's own buffer, when there is one, is live and has the recorded size. */
    ghost predicate Valid()
      reads this
    {
      && (allocatedSize == 0 <==> allocatedData == null)
      && (allocatedData != null ==> allocatedData.Length == allocatedSize && allocatedData !in freed)
    }

    /** What `data` points at may be read: it is not a buffer that was freed, and it is long enough. */
    ghost predicate Readable()
      reads this
    {
      data != null ==> data !in freed && dataSize <= data.Length
    }

    /** The bytes of the frame; a frame without data reads as zeros. */
    ghost function Bytes(): (r: seq<Byte>)
      requires Readable()
      reads this, data
    {
      if data == null then Zeros(dataSize) else data[..dataSize]
    }

    /** The data is the frame's own buffer. */
    ghost predicate Writable()
      reads this
    {
      data == allocatedData && dataSize <= allocatedSize
    }

    constructor (format: PixelFormat)
      ensures Valid() && Readable() && freed == {}
      ensures data == null && dataSize == 0 && allocatedData == null
      ensures props == Properties(0, 0, false, 0, 0, 0, 0, 0, 0, 0, 0, format)
    {
      props := Properties(0, 0, false, 0, 0, 0, 0, 0, 0, 0, 0, format);
      data, dataSize := null, 0;
      allocatedData, allocatedSize := null, 0;
      freed := {};
    }

    method Free()
      requires Valid()
      modifies this`allocatedData, this`allocatedSize, this`freed
      ensures Valid() && allocatedData == null
      ensures freed == old(freed) + (if old(allocatedData) != null then {old(allocatedData)} else {})
    {
      if allocatedSize != 0 {
        freed := freed + {allocatedData};
        allocatedData := null;
        allocatedSize := 0;
      }
    }

    /** Makes the frame's own buffer, grown if it is too small, the data. A failed allocation changes nothing. */
    method AllocateData(nBytes: UInt32, allocOk: bool) returns (st: Status)
      requires Valid()
      modifies this
      ensures Valid() && props == old(props)
      ensures st == if nBytes <= old(allocatedSize) || allocOk then OK else ALLOC_FAILED
      ensures st != OK ==> unchanged(this)
      ensures st == OK ==> Writable() && dataSize == nBytes
      ensures st == OK && nBytes <= old(allocatedSize) ==> allocatedData == old(allocatedData) && freed == old(freed)
      ensures st == OK && nBytes > old(allocatedSize) ==> fresh(allocatedData)
      ensures st == OK && nBytes > old(allocatedSize) ==>
                freed == old(freed) + (if old(allocatedData) != null then {old(allocatedData)} else {})
    {
      if nBytes > allocatedSize {
        if !allocOk {
          return ALLOC_FAILED;
        }
        var buffer := new Byte[nBytes];
        Free();
        allocatedData := buffer;
        allocatedSize := nBytes;
      }
      dataSize := nBytes;
      data := allocatedData;
      return OK;
    }

    /**
     * Copies `n` bytes to a buffer that has them. What it reads beyond the end of the source, or from a
     * source that was freed, is not determined.
     */
    method MemCopy(dest: array?<Byte>, source: array<Byte>, n: nat)
      requires n > 0 ==> dest != null && n <= dest.Length
      modifies dest
      ensures source !in freed && n <= source.Length && source != dest && n > 0 ==> dest[..n] == old(source[..n])
    {
      var i := 0;
      while i < n
        invariant 0 <= i <= n
        invariant source != dest && n > 0 ==> source[..] == old(source[..])
        invariant source != dest && n <= source.Length && n > 0 ==> dest[..i] == old(source[..i])
      {
        if i < source.Length {
          dest[i] := source[i];
        }
        i := i + 1;
      }
    }

    method MemSetZero(dest: array?<Byte>, n: nat)
      requires n > 0 ==> dest != null && n <= dest.Length
      modifies dest
      ensures n > 0 ==> dest[..n] == Zeros(n)
    {
      var i := 0;
      while i < n
        invariant 0 <= i <= n
        invariant forall j :: 0 <= j < i ==> dest[j] == 0
      {
        dest[i] := 0;
        i := i + 1;
      }
    }

    /**
     * Copy on write. `stale` tells whether the bytes were copied out of a buffer that had just been freed,
     * which happens exactly when the data is the frame's own buffer, that buffer is smaller than the
     * recorded size, and a new one could be allocated. In every other case the bytes are kept.
     */
    method MakeDataWritable(allocOk: bool) returns (st: Status, ghost stale: bool)
      requires Valid() && (data != allocatedData ==> Readable())
      modifies this, allocatedData
      ensures Valid() && props == old(props) && dataSize == old(dataSize)
      ensures st == if old(dataSize <= allocatedSize) || allocOk then OK else ALLOC_FAILED
      ensures st != OK ==> unchanged(this)
      ensures old(Writable()) ==> unchanged(this)
      ensures stale <==> st == OK && old(data != null && data == allocatedData && dataSize > allocatedSize)
      ensures stale <==> st == OK && old(!Readable())
      ensures old(Readable()) ==> Readable() && Bytes() == old(Bytes())
      ensures st == OK ==> Writable() && Readable()
      ensures allocatedData == old(allocatedData) || fresh(allocatedData)
      ensures old(data != null && data != allocatedData) ==>
                old(data)[..] == old(data[..]) && (st == OK ==> data != old(data))
    {
      stale := false;
      if data != allocatedData || dataSize > allocatedSize {
        var orig := data;
        st := AllocateData(dataSize, allocOk);
        if st != OK {
          return;
        }
        if orig != null {
          stale := orig in freed;
          MemCopy(allocatedData, orig, dataSize);
        } else {
          MemSetZero(allocatedData, dataSize);
        }
      }
      st := OK;
    }

    /** The number of bytes of a map, as a 32-bit product. */
    function MapBytes(x: UInt32, y: UInt32, format: PixelFormat): UInt32 {
      Wrap(x * y * BytesPerPixel(format))
    }

    /** Three bytes to a pixel for RGB, one for 8-bit grey, two for everything else, as long as the product fits. */
    lemma MapBytesAre(x: UInt32, y: UInt32, format: PixelFormat, perPixel: nat)
      requires format == RGB24 ==> perPixel == 3
      requires format == GRAYSCALE_8_BIT ==> perPixel == 1
      requires format != RGB24 && format != GRAYSCALE_8_BIT ==> perPixel == 2
      ensures MapBytes(x, y, format) == (x * y * perPixel) % UINT32_VALUES
      ensures x * y * perPixel < UINT32_VALUES ==> MapBytes(x, y, format) == x * y * perPixel
    {
      if x * y * perPixel < UINT32_VALUES {
        Fitting(x * y * perPixel);
      }
    }

    method MapAllocateData(x: UInt32, y: UInt32, allocOk: bool) returns (st: Status)
      requires Valid()
      modifies this
      ensures Valid()
      ensures st == if MapBytes(x, y, old(props.format)) <= old(allocatedSize) || allocOk then OK else ALLOC_FAILED
      ensures st != OK ==> unchanged(this)
      ensures st == OK ==> Writable() && dataSize == MapBytes(x, y, old(props.format))
      ensures st == OK ==> props == Sized(old(props), x, y)
      ensures st == OK ==> allocatedData == old(allocatedData) || fresh(allocatedData)
      ensures st == OK ==> HasSize(props, x, y) && SameBesides(old(props), props)
      ensures st == OK ==> props.format == old(props.format) && dataSize == MapBytes(x, y, old(props.format))
    {
      var nSize := MapBytes(x, y, props.format);
      st := AllocateData(nSize, allocOk);
      if st != OK {
        return;
      }
      props := Sized(props, x, y);
    }

    /** New dimensions, over a buffer of the caller's or over one that is allocated. */
    method MapReAdjust(x: UInt32, y: UInt32, external: array?<Byte>, allocOk: bool) returns (st: Status)
      requires Valid()
      modifies this
      ensures Valid()
      ensures var fits := external != null || MapBytes(x, y, old(props.format)) <= old(allocatedSize);
              st == if fits || allocOk then OK else ALLOC_FAILED
      ensures st != OK ==> unchanged(this)
      ensures st == OK ==> dataSize == MapBytes(x, y, old(props.format)) && props == Sized(old(props), x, y)
      ensures st == OK && external == null ==> Writable()
      ensures external != null ==> data == external && allocatedData == old(allocatedData) && freed == old(freed)
      ensures st == OK ==> HasSize(props, x, y) && SameBesides(old(props), props)
      ensures st == OK ==> props.format == old(props.format) && dataSize == MapBytes(x, y, old(props.format))
    {
      if external == null {
        st := MapAllocateData(x, y, allocOk);
      } else {
        props := Sized(props, x, y);
        data := external;
        dataSize := MapBytes(x, y, props.format);
        st := OK;
      }
    }

    /** The image form sets the format first, since the size depends on it, and puts it back on failure. */
    method ImageReAdjust(x: UInt32, y: UInt32, format: PixelFormat, external: array?<Byte>, allocOk: bool)
      returns (st: Status)
      requires Valid()
      modifies this
      ensures Valid()
      ensures var fits := external != null || MapBytes(x, y, format) <= old(allocatedSize);
              st == if fits || allocOk then OK else ALLOC_FAILED
      ensures st != OK ==> props == old(props) && data == old(data) && dataSize == old(dataSize)
      ensures st != OK ==> allocatedData == old(allocatedData) && allocatedSize == old(allocatedSize)
      ensures st != OK ==> freed == old(freed)
      ensures st == OK ==> dataSize == MapBytes(x, y, format) && props == Sized(old(props).(format := format), x, y)
      ensures st == OK && external == null ==> Writable()
      ensures external != null ==> data == external
      ensures st == OK ==> HasSize(props, x, y) && SameBesides(old(props), props)
      ensures st == OK ==> props.format == format && dataSize == MapBytes(x, y, format)
    {
      var origFormat := props.format;
      props := props.(format := format);
      st := MapReAdjust(x, y, external, allocOk);
      if st != OK {
        props := props.(format := origFormat);
      }
    }

    method ImageAllocateData(x: UInt32, y: UInt32, format: PixelFormat, allocOk: bool) returns (st: Status)
      requires Valid()
      modifies this
      ensures Valid()
      ensures st == if MapBytes(x, y, format) <= old(allocatedSize) || allocOk then OK else ALLOC_FAILED
      ensures st != OK ==> props == old(props) && data == old(data) && dataSize == old(dataSize)
      ensures st != OK ==> allocatedData == old(allocatedData) && allocatedSize == old(allocatedSize)
      ensures st != OK ==> freed == old(freed)
      ensures st == OK ==> Writable() && dataSize == MapBytes(x, y, format)
      ensures st == OK ==> props == Sized(old(props).(format := format), x, y)
      ensures st == OK ==> HasSize(props, x, y) && SameBesides(old(props), props)
      ensures st == OK ==> props.format == format && dataSize == MapBytes(x, y, format)
    {
      var origFormat := props.format;
      props := props.(format := format);
      st := MapAllocateData(x, y, allocOk);
      if st != OK {
        props := props.(format := origFormat);
      }
    }

    /** The shallow copy: all properties, and the same data. */
    method InitFrom(other: MetaData)
      modifies this`props, this`data, this`dataSize
      ensures props == old(other.props) && data == old(other.data) && dataSize == old(other.dataSize)
    {
      props := other.props;
      data := other.data;
      dataSize := other.dataSize;
    }

    /**
     * The deep copy. It ends with its own bytes, unless the source's data was already this frame's
     * buffer, which then stays shared. On a failed allocation the properties and the source's data are
     * kept, as a shallow copy. Copied onto itself, a frame becomes writable.
     */
    method CopyFrom(other: MetaData, allocOk: bool) returns (st: Status)
      requires Valid() && other.Readable()
      requires other.data != null ==> other.data !in freed
      modifies this, allocatedData
      ensures Valid() && Readable() && props == old(other.props) && dataSize == old(other.dataSize)
      ensures other != this ==> unchanged(other) && other.Readable() && other.Bytes() == old(other.Bytes())
      ensures st == if old(other.dataSize <= allocatedSize) || allocOk then OK else ALLOC_FAILED
      ensures Bytes() == old(other.Bytes())
      ensures st == OK ==> Writable()
      ensures st == OK && old(other.data) != null ==>
                (data != old(other.data) <==> old(other.data) != old(allocatedData))
      ensures st != OK ==> data == old(other.data) && allocatedData == old(allocatedData)
    {
      InitFrom(other);
      ghost var stale;
      st, stale := MakeDataWritable(allocOk);
    }
  }
}
