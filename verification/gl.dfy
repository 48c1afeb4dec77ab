/** The hand-written marshalling layer of src/gl.rs: each wrapper turns Rust values (slices,
    strings, optional payloads) into the pointer, length and count arguments of one native call,
    sizes the output buffers the native side fills, and shapes what comes back.  The native side
    is the abstract `Ffi.Driver`; each wrapper's contract says which call it appends to the
    driver's trace, with which arguments, and what it returns. */
module Gl {
  import opened RustCore
  import opened Utils
  import opened Ffi

  datatype Option<T> = None | Some(value: T)

  /** Size of the scratch buffer the info-log getters hand to the driver. */
  const INFO_LOG_CAPACITY: int := 1024

  // ---------------------------------------------------------------------------------------
  // read_pixels

  /** `colors` in read_pixels: channels per pixel of the formats it accepts.  The android build
      compiles the BGR and BGRA arms out, so those formats fall to the panicking arm there. */
  function ChannelCount(platform: Platform, format: GLenum): (r: Option<I32>)
    ensures r.Some? ==> r.value == Components(format) && r.value in {1, 3, 4}
    ensures r.Some? <==> format in {RGB, RGBA, ALPHA, LUMINANCE} || (platform == Desktop && format in {BGR, BGRA})
  {
    if format == RGB then Some(3)
    else if platform == Desktop && format == BGR then Some(3)
    else if format == RGBA then Some(4)
    else if platform == Desktop && format == BGRA then Some(4)
    else if format == ALPHA then Some(1)
    else if format == LUMINANCE then Some(1)
    else None
  }

  /** `depth` in read_pixels: bytes per channel; only UNSIGNED_BYTE is accepted. */
  function BytesPerChannel(pixelType: GLenum): (r: Option<I32>)
    ensures r.Some? <==> pixelType == UNSIGNED_BYTE
    ensures r.Some? ==> r.value == ComponentSize(pixelType) == 1
  {
    if pixelType == UNSIGNED_BYTE then Some(1) else None
  }

  /** The length read_pixels computes for its buffer, or the panic it raises first: an unknown
      format, then an unknown pixel type, then an `i32` overflow in
      `width * height * colors * depth`, then "capacity overflow" when `reserve` is handed a
      negative length cast to `usize`.  A length it returns is at least what the native side
      writes in the tight pack state. */
  function ReadPixelsSize(platform: Platform, width: GLsizei, height: GLsizei, format: GLenum, pixelType: GLenum)
    : (r: Result<nat>)
    ensures (r.Panicked? && r.reason == UnsupportedFormat) <==> ChannelCount(platform, format).None?
    ensures (r.Panicked? && r.reason == UnsupportedPixelType)
            <==> ChannelCount(platform, format).Some? && pixelType != UNSIGNED_BYTE
    ensures r.Ok? ==> ChannelCount(platform, format).Some? && pixelType == UNSIGNED_BYTE
    ensures r.Ok? ==> r.value == width * height * Components(format) * ComponentSize(pixelType) <= I32_MAX
    ensures r.Ok? ==> PackedSize(width, height, Components(format), ComponentSize(pixelType), TIGHT_PACK) <= r.value
  {
    PackedSizeUnpadded(width, height, Components(format), ComponentSize(pixelType));
    match ChannelCount(platform, format)
    case None => Panicked(UnsupportedFormat)
    case Some(colors) =>
      match BytesPerChannel(pixelType)
      case None => Panicked(UnsupportedPixelType)
      case Some(depth) =>
        var wh := MulI32(width, height);
        if wh.Panicked? then Panicked(wh.reason) else
        var whc := MulI32(wh.value, colors);
        if whc.Panicked? then Panicked(whc.reason) else
        var len := MulI32(whc.value, depth);
        if len.Panicked? then Panicked(len.reason) else
        var n := AsUsize(len.value);
        if CapacityOk(n, 1) then Ok(n) else Panicked(CapacityOverflow)
  }

  /** For a supported format, UNSIGNED_BYTE and a rectangle of non-negative size, the buffer has
      exactly width x height x channels bytes, and the only failure is an `i32` overflow of that
      product. */
  lemma ReadPixelsSizeExact(platform: Platform, width: GLsizei, height: GLsizei, format: GLenum)
    requires width >= 0 && height >= 0 && ChannelCount(platform, format).Some?
    ensures var c := ChannelCount(platform, format).value;
            ReadPixelsSize(platform, width, height, format, UNSIGNED_BYTE)
              == if width * height * c <= I32_MAX then Ok(width * height * c) else Panicked(MultiplyOverflow)
  {
    var c := ChannelCount(platform, format).value;
    assert c >= 1;
    if width * height > I32_MAX {
      assert width * height * c >= width * height;
    }
  }

  /** An RGBA read of W x H pixels returns 4*W*H bytes. */
  lemma ReadPixelsRgba(platform: Platform, width: GLsizei, height: GLsizei)
    requires width >= 0 && height >= 0 && 4 * width * height <= I32_MAX
    ensures ReadPixelsSize(platform, width, height, RGBA, UNSIGNED_BYTE) == Ok(4 * width * height)
  {
    ReadPixelsSizeExact(platform, width, height, RGBA);
  }

  /** BGR and BGRA are read on desktop and refused on android; every format the android table
      accepts, the desktop table accepts with the same channel count. */
  lemma ReadPixelsPlatformTables(width: GLsizei, height: GLsizei, format: GLenum, pixelType: GLenum)
    ensures format in {BGR, BGRA} ==> ReadPixelsSize(Android, width, height, format, pixelType) == Panicked(UnsupportedFormat)
    ensures format in {BGR, BGRA} ==> ReadPixelsSize(Desktop, width, height, format, pixelType) != Panicked(UnsupportedFormat)
    ensures ChannelCount(Android, format).Some? ==> ChannelCount(Desktop, format) == ChannelCount(Android, format)
  {
  }

  /** Whenever the product fits in `i32` the sign alone decides: a negative product (one
      negative dimension) reaches `reserve` as a huge `usize` and panics with "capacity
      overflow"; any other product, zero included, is the length. */
  lemma ReadPixelsSizeInRange(platform: Platform, width: GLsizei, height: GLsizei, format: GLenum)
    requires ChannelCount(platform, format).Some?
    requires var c := ChannelCount(platform, format).value; I32_MIN <= width * height * c <= I32_MAX
    ensures var p := width * height * ChannelCount(platform, format).value;
            ReadPixelsSize(platform, width, height, format, UNSIGNED_BYTE)
              == if p < 0 then Panicked(CapacityOverflow) else Ok(p)
  {
    var c := ChannelCount(platform, format).value;
    var wh := width * height;
    assert c >= 1;
    if wh > 0 {
      assert wh * c >= wh;
    } else if wh < 0 {
      assert wh * c <= wh;
    }
  }

  /** Two negative dimensions are not rejected: they multiply to a positive length, and a
      buffer of that length is returned although the native side writes nothing into it. */
  lemma ReadPixelsBothNegative(platform: Platform, width: GLsizei, height: GLsizei, format: GLenum)
    requires ChannelCount(platform, format).Some?
    requires width < 0 && height < 0
    requires width * height * ChannelCount(platform, format).value <= I32_MAX
    ensures var p := width * height * ChannelCount(platform, format).value;
            p > 0 && ReadPixelsSize(platform, width, height, format, UNSIGNED_BYTE) == Ok(p)
    ensures PackedSize(width, height, Components(format), ComponentSize(UNSIGNED_BYTE), TIGHT_PACK) == 0
  {
    var c := ChannelCount(platform, format).value;
    assert width * height > 0;
    assert width * height * c > 0;
    ReadPixelsSizeInRange(platform, width, height, format);
  }

  /** Why PACK_ALIGNMENT is pinned: under the GL's initial alignment of 4 a 1 x 2 RGB image is
      packed with a padded first row, 7 bytes, more than the 6 that width x height x channels
      allots. */
  lemma DefaultAlignmentOverruns()
    ensures PackedSize(1, 2, Components(RGB), ComponentSize(UNSIGNED_BYTE), INITIAL_PACK) == 7
    ensures ReadPixelsSize(Desktop, 1, 2, RGB, UNSIGNED_BYTE) == Ok(6)
  {
  }

  /** Pinning the alignment alone is not enough: at alignment 1, any skipped row or pixel, or a
      row length above the width on an image of two rows or more, makes the pack span more than
      the width x height x components x size bytes read_pixels allots. */
  lemma PackStateOverruns(width: int, height: int, components: nat, size: nat, pack: PackState)
    requires width > 0 && height > 0 && components > 0 && size > 0
    requires pack.Legal() && pack.alignment == 1 && (pack.rowLength == 0 || pack.rowLength >= width)
    requires pack.skipRows > 0 || pack.skipPixels > 0 || (pack.rowLength > width && height > 1)
    ensures PackedSize(width, height, components, size, pack) > width * height * components * size
  {
    var u := components * size;
    var rowPixels := if pack.rowLength > 0 then pack.rowLength else width;
    assert rowPixels * components * size == rowPixels * u;
    assert (pack.skipPixels + width) * components * size == (pack.skipPixels + width) * u;
    assert width * height * components * size == width * height * u;
    SpanExceedsImage(width, height, u, rowPixels, pack.skipRows, pack.skipPixels);
  }

  /** The arithmetic behind `PackStateOverruns`: rows of `rowPixels` >= `width` pixels of `u`
      bytes, `skipRows` rows and `skipPixels` pixels passed over, span more than the image
      unless nothing is skipped and the rows are exactly as wide as the image (or only one). */
  lemma SpanExceedsImage(width: int, height: int, u: int, rowPixels: int, skipRows: int, skipPixels: int)
    requires width > 0 && height > 0 && u > 0 && rowPixels >= width && skipRows >= 0 && skipPixels >= 0
    requires skipRows > 0 || skipPixels > 0 || (rowPixels > width && height > 1)
    ensures rowPixels * u * (skipRows + height - 1) + (skipPixels + width) * u > width * height * u
  {
    var rows := skipRows + height - 1;
    SpanSplit(width, height, u, rowPixels, skipRows, skipPixels);
    var wideRows := (rowPixels - width) * u * rows;
    var skippedRows := width * u * skipRows;
    var skippedPixels := skipPixels * u;
    ScaleMonotone(u, 0, skipPixels);
    ScaleMonotone(width * u, 0, skipRows);
    ScaleMonotone(u * rows, 0, rowPixels - width);
    if skipRows > 0 {
      ScaleMonotone(width * u, 1, skipRows);
    } else if skipPixels > 0 {
      ScaleMonotone(u, 1, skipPixels);
    } else {
      ScaleMonotone(u * rows, 1, rowPixels - width);
      ScaleMonotone(u, 1, rows);
    }
    assert wideRows == (u * rows) * (rowPixels - width);
  }

  /** How the span splits: the image itself, the widening of every row spanned, the skipped rows
      and the skipped pixels. */
  lemma SpanSplit(width: int, height: int, u: int, rowPixels: int, skipRows: int, skipPixels: int)
    ensures rowPixels * u * (skipRows + height - 1) + (skipPixels + width) * u
            == width * height * u + (rowPixels - width) * u * (skipRows + height - 1)
               + width * u * skipRows + skipPixels * u
  {
    var rows := skipRows + height - 1;
    assert rowPixels * u * rows == (rowPixels - width) * u * rows + width * u * rows;
    assert width * u * rows == width * u * skipRows + width * u * (height - 1);
    assert width * u * (height - 1) + width * u == width * height * u;
  }

  /** The overrun reached through the public `pixel_store_i`: after
      `pixel_store_i(PACK_ROW_LENGTH, 100)` on desktop, read_pixels of a 1 x 2 RGB image still
      reserves 6 bytes, but with rows 100 pixels apart the driver writes at least 303. */
  lemma RowLengthOverruns(pack: PackState)
    requires pack.Legal()
    ensures var p := StorePack(Desktop, StorePack(Desktop, pack, PACK_ROW_LENGTH, 100), PACK_ALIGNMENT, 1);
            PackedSize(1, 2, Components(RGB), ComponentSize(UNSIGNED_BYTE), p) >= 303
    ensures ReadPixelsSize(Desktop, 1, 2, RGB, UNSIGNED_BYTE) == Ok(6)
  {
    var p := StorePack(Desktop, StorePack(Desktop, pack, PACK_ROW_LENGTH, 100), PACK_ALIGNMENT, 1);
    assert p == PackState(1, 100, pack.skipRows, pack.skipPixels);
    assert PackedSize(1, 2, 3, 1, p) == 300 * (pack.skipRows + 1) + (pack.skipPixels + 1) * 3;
  }

  /** read_pixels: size the buffer (panicking before any native call when the format, type or
      size is refused), pin PACK_ALIGNMENT to 1, let the driver fill the buffer, and return it
      at the computed length.  The alignment stays 1 afterwards.  The code resets no other pack
      parameter, so the driver is only handed a large enough buffer when row length and skips
      are already 0 (see `RowLengthOverruns`). */
  method ReadPixels(d: Driver, x: GLint, y: GLint, width: GLsizei, height: GLsizei, format: GLenum, pixelType: GLenum)
    returns (r: Result<seq<Byte>>)
    requires d.Valid() && d.pack.rowLength == 0 && d.pack.skipRows == 0 && d.pack.skipPixels == 0
    modifies d`trace, d`pack
    ensures d.Valid()
    ensures r.Panicked? <==> ReadPixelsSize(d.platform, width, height, format, pixelType).Panicked?
    ensures r.Panicked? ==> r.reason == ReadPixelsSize(d.platform, width, height, format, pixelType).reason
                            && d.trace == old(d.trace) && d.pack == old(d.pack)
    ensures r.Ok? ==> ReadPixelsSize(d.platform, width, height, format, pixelType) == Ok(|r.value|)
                      && d.pack == TIGHT_PACK
                      && d.trace == old(d.trace) + [Call.PixelStorei(PACK_ALIGNMENT, 1),
                                                    Call.ReadPixels(x, y, width, height, format, pixelType, |r.value|)]
  {
    var size := ReadPixelsSize(d.platform, width, height, format, pixelType);
    if size.Panicked? {
      return Panicked(size.reason);
    }
    var pixels := new Byte[size.value];
    d.PixelStorei(PACK_ALIGNMENT, 1);
    d.ReadPixels(x, y, width, height, format, pixelType, pixels);
    r := Ok(pixels[..]);
  }

  /** The calls that put the pack state into `TIGHT_PACK`; OpenGL ES 2.0 has only the alignment. */
  function TightPackCalls(platform: Platform): seq<Call>
  {
    [Call.PixelStorei(PACK_ALIGNMENT, 1)]
      + if platform == Desktop then
          [Call.PixelStorei(PACK_ROW_LENGTH, 0), Call.PixelStorei(PACK_SKIP_ROWS, 0),
           Call.PixelStorei(PACK_SKIP_PIXELS, 0)]
        else []
  }

  /** Corrected read_pixels: every pack parameter is reset before the read, so the buffer covers
      what the driver writes whatever `pixel_store_i` set before. */
  method ReadPixelsFixed(d: Driver, x: GLint, y: GLint, width: GLsizei, height: GLsizei, format: GLenum,
                         pixelType: GLenum)
    returns (r: Result<seq<Byte>>)
    requires d.Valid()
    modifies d`trace, d`pack
    ensures d.Valid()
    ensures r.Panicked? <==> ReadPixelsSize(d.platform, width, height, format, pixelType).Panicked?
    ensures r.Panicked? ==> r.reason == ReadPixelsSize(d.platform, width, height, format, pixelType).reason
                            && d.trace == old(d.trace) && d.pack == old(d.pack)
    ensures r.Ok? ==> ReadPixelsSize(d.platform, width, height, format, pixelType) == Ok(|r.value|)
                      && d.pack == TIGHT_PACK
                      && d.trace == old(d.trace) + TightPackCalls(d.platform)
                                    + [Call.ReadPixels(x, y, width, height, format, pixelType, |r.value|)]
  {
    var size := ReadPixelsSize(d.platform, width, height, format, pixelType);
    if size.Panicked? {
      return Panicked(size.reason);
    }
    var pixels := new Byte[size.value];
    d.PixelStorei(PACK_ALIGNMENT, 1);
    if d.platform == Desktop {
      d.PixelStorei(PACK_ROW_LENGTH, 0);
      d.PixelStorei(PACK_SKIP_ROWS, 0);
      d.PixelStorei(PACK_SKIP_PIXELS, 0);
    }
    d.ReadPixels(x, y, width, height, format, pixelType, pixels);
    r := Ok(pixels[..]);
  }

  // ---------------------------------------------------------------------------------------
  // Info logs

  /** The length the info-log getters keep: `result_len - 1` bytes when the reported length is
      positive, none otherwise; `truncate` never lengthens, so a report past the buffer keeps
      the whole buffer. */
  function InfoLogKeep(buf: seq<Byte>, reported: GLsizei): (r: seq<Byte>)
    ensures |r| == if reported > 0 then Min(reported - 1, |buf|) else 0
    ensures |r| <= |buf| && r == buf[..|r|]
  {
    Truncate(buf, if reported > 0 then reported - 1 else 0)
  }

  /** The scratch buffer after the driver's query: 1024 zero bytes over which as much of `log`
      as fits before a terminator has been copied, then the terminator. */
  function ScratchAfterQuery(log: seq<Byte>): (buf: seq<Byte>)
    ensures |buf| == INFO_LOG_CAPACITY
    ensures var w := Min(|log|, INFO_LOG_CAPACITY - 1); buf[..w] == log[..w] && buf[w] == 0
  {
    var w := Min(|log|, INFO_LOG_CAPACITY - 1);
    log[..w] + [0] + seq(INFO_LOG_CAPACITY - w - 1, _ => 0)
  }

  /** What the info-log getters return for a driver-side log: the log cut to the 1023 bytes that
      fit before the terminator, less its last byte. */
  function InfoLogAsWritten(log: seq<Byte>): (r: seq<Byte>)
    ensures r == if |log| == 0 then [] else log[..Min(|log|, INFO_LOG_CAPACITY - 1) - 1]
    ensures |r| < INFO_LOG_CAPACITY
  {
    InfoLogKeep(ScratchAfterQuery(log), Min(|log|, INFO_LOG_CAPACITY - 1))
  }

  /** The length the GL reports excludes the terminator, so keeping `length - 1` bytes loses the
      last byte of every non-empty log: a log "ok" comes back as "o". */
  lemma InfoLogDropsLastByte(log: seq<Byte>)
    requires 0 < |log| < INFO_LOG_CAPACITY
    ensures InfoLogAsWritten(log) == log[..|log| - 1] != log
    ensures InfoLogAsWritten([0x6f, 0x6b]) == [0x6f]
  {
  }

  /** Corrected rule: keep the reported length itself (none when it is not positive). */
  function InfoLogKeepFixed(buf: seq<Byte>, reported: GLsizei): (r: seq<Byte>)
    ensures |r| == if reported > 0 then Min(reported, |buf|) else 0
    ensures r == buf[..|r|]
  {
    Truncate(buf, if reported > 0 then reported else 0)
  }

  /** With the corrected rule the getters return the driver's log, cut only where the scratch
      buffer runs out. */
  function InfoLogFixed(log: seq<Byte>): (r: seq<Byte>)
    ensures r == log[..Min(|log|, INFO_LOG_CAPACITY - 1)]
    ensures |log| < INFO_LOG_CAPACITY ==> r == log
  {
    InfoLogKeepFixed(ScratchAfterQuery(log), Min(|log|, INFO_LOG_CAPACITY - 1))
  }

  /** get_program_info_log / get_shader_info_log: a 1024-byte zeroed scratch buffer, filled by
      the driver, truncated to the reported length less one. */
  method GetInfoLog(d: Driver, log: LogKind, id: GLuint) returns (text: seq<Byte>)
    modifies d`trace
    ensures d.trace == old(d.trace) + [Call.GetInfoLog(log, id, INFO_LOG_CAPACITY)]
    ensures text == InfoLogAsWritten(d.LogOf(log, id))
    ensures |text| <= INFO_LOG_CAPACITY
  {
    var buf := new Byte[INFO_LOG_CAPACITY](_ => 0);
    var resultLen := d.GetInfoLog(log, id, INFO_LOG_CAPACITY, buf);
    assert buf[..] == ScratchAfterQuery(d.LogOf(log, id));
    text := InfoLogKeep(buf[..], resultLen);
  }

  // ---------------------------------------------------------------------------------------
  // Slices to pointer, length and count

  /** The length array of shader_source: entry i is `strings[i].len() as GLint`. */
  function ShaderLengths(strings: seq<seq<Byte>>): (lengths: seq<GLint>)
    ensures |lengths| == |strings|
    ensures forall i :: 0 <= i < |strings| ==> lengths[i] <= |strings[i]|
    ensures forall i :: 0 <= i < |strings| && |strings[i]| <= I32_MAX ==> lengths[i] == |strings[i]|
  {
    seq(|strings|, i requires 0 <= i < |strings| => AsI32(|strings[i]|))
  }

  /** With exact lengths the native side reads each string whole, for every entry it is told of. */
  lemma {:induction false} SourcesReadExact(strings: seq<seq<Byte>>, count: nat)
    requires count <= |strings|
    requires forall i :: 0 <= i < |strings| ==> |strings[i]| <= I32_MAX
    ensures SourcesRead(strings, ShaderLengths(strings), count) == strings[..count]
  {
    if count > 0 {
      SourcesReadExact(strings, count - 1);
      var lengths := ShaderLengths(strings);
      assert lengths[count - 1] == |strings[count - 1]|;
      assert strings[count - 1][..lengths[count - 1]] == strings[count - 1];
      assert strings[..count] == strings[..count - 1] + [strings[count - 1]];
    }
  }

  /** shader_source: a pointer array and a parallel length array, the count taken from the
      pointer array; the native side reads every string, each exactly. */
  method ShaderSource(d: Driver, shader: GLuint, strings: seq<seq<Byte>>)
    requires forall i :: 0 <= i < |strings| ==> |strings[i]| <= I32_MAX
    modifies d`trace
    ensures var count := AsI32(|strings|);
            d.trace == old(d.trace) + [Call.ShaderSource(shader, count, ShaderLengths(strings),
                                                         strings[..if count < 0 then 0 else count])]
    ensures |strings| <= I32_MAX ==>
              d.trace == old(d.trace) + [Call.ShaderSource(shader, |strings|, ShaderLengths(strings), strings)]
  {
    var pointers := strings;
    var lengths := ShaderLengths(strings);
    var count := AsI32(|pointers|);
    SourcesReadExact(strings, if count < 0 then 0 else count);
    assert strings[..|strings|] == strings;
    d.ShaderSource(shader, count, pointers, lengths);
  }

  /** buffer_data: the byte size is element count times element size; `elemSize` stands for
      `size_of::<T>()`, and a slice never spans more than `isize::MAX` bytes. */
  method BufferData<T>(d: Driver, target: GLenum, data: seq<T>, elemSize: nat, usage: GLenum)
    requires |data| * elemSize <= ISIZE_MAX
    modifies d`trace
    ensures d.trace == old(d.trace) + [Call.BufferData(target, |data| * elemSize, usage)]
  {
    d.BufferData(target, |data| * elemSize, |data| * elemSize, usage);
  }

  /** The count the uniform-array wrappers pass: whole groups of `width` floats, cast to GLsizei. */
  function UniformCount(len: nat, width: nat): (count: GLsizei)
    requires width > 0
    ensures width * count <= len
    ensures len / width <= I32_MAX ==> count >= 0 && len < width * (count + 1)
  {
    var k := len / width;
    DivisionBounds(len, width);
    var count := AsI32(k);
    ScaleMonotone(width, count, k);
    count
  }

  lemma DivisionBounds(len: nat, width: nat)
    requires width > 0
    ensures width * (len / width) <= len < width * (len / width + 1)
  {
    assert len == width * (len / width) + len % width;
  }

  lemma ScaleMonotone(width: nat, a: int, b: int)
    requires a <= b
    ensures width * a <= width * b
  {
    assert width * b - width * a == width * (b - a);
  }

  /** uniform_4fv: `values.len() / 4` vec4 values. */
  method Uniform4fv<T>(d: Driver, location: GLint, values: seq<T>)
    modifies d`trace
    ensures d.trace == old(d.trace) + [Call.Uniform4fv(location, UniformCount(|values|, 4))]
  {
    d.Uniform4fv(location, UniformCount(|values|, 4), |values|);
  }

  /** uniform_matrix_4fv: `value.len() / 16` matrices. */
  method UniformMatrix4fv<T>(d: Driver, location: GLint, transpose: bool, value: seq<T>)
    modifies d`trace
    ensures d.trace == old(d.trace) + [Call.UniformMatrix4fv(location, UniformCount(|value|, 16), transpose)]
  {
    d.UniformMatrix4fv(location, UniformCount(|value|, 16), transpose, |value|);
  }

  // ---------------------------------------------------------------------------------------
  // Object names

  /** gen_buffers, gen_renderbuffers, gen_framebuffers, gen_textures, gen_vertex_arrays (the last
      desktop only): a zeroed vector of `n` names the driver fills.  A negative `n` becomes a huge
      `usize`, and building the vector panics before any native call. */
  method GenNames(d: Driver, objects: ObjectKind, n: GLsizei) returns (r: Result<seq<GLuint>>)
    requires objects == VertexArrays ==> d.platform == Desktop
    modifies d`trace
    ensures r.Panicked? <==> n < 0
    ensures r.Panicked? ==> r.reason == CapacityOverflow && d.trace == old(d.trace)
    ensures r.Ok? ==> |r.value| == n && d.trace == old(d.trace) + [Call.GenNames(objects, n, r.value)]
  {
    var count := AsUsize(n);
    if !CapacityOk(count, 4) {
      return Panicked(CapacityOverflow);
    }
    var names := new GLuint[count](_ => 0);
    d.GenNames(objects, n, names);
    assert names[..n] == names[..];
    r := Ok(names[..]);
  }

  /** delete_buffers, delete_renderbuffers, delete_framebuffers (and its alias
      delete_frame_buffers), delete_textures, delete_vertex_arrays (desktop only): the slice
      length, cast to GLsizei, is the count. */
  method DeleteNames(d: Driver, objects: ObjectKind, names: seq<GLuint>)
    requires objects == VertexArrays ==> d.platform == Desktop
    modifies d`trace
    ensures var n := AsI32(|names|);
            d.trace == old(d.trace) + [Call.DeleteNames(objects, n, names[..if n < 0 then 0 else n])]
    ensures |names| <= I32_MAX ==> d.trace == old(d.trace) + [Call.DeleteNames(objects, |names|, names)]
  {
    assert names[..|names|] == names;
    d.DeleteNames(objects, AsI32(|names|), names);
  }

  // ---------------------------------------------------------------------------------------
  // Textures

  /** The data argument of tex_image_2d / tex_image_3d: null exactly when no payload is given.
      An empty payload is still `Ptr([])`, a (dangling, non-null) pointer, not null. */
  function PayloadPointer(data: Option<seq<Byte>>): (p: ConstPtr)
    ensures p.Null? <==> data.None?
    ensures data.Some? ==> p == Ptr(data.value)
  {
    match data
    case Some(bytes) => Ptr(bytes)
    case None => Null
  }

  method TexImage2D(d: Driver, target: GLenum, level: GLint, internalFormat: GLint, width: GLsizei, height: GLsizei,
                    border: GLint, format: GLenum, pixelType: GLenum, data: Option<seq<Byte>>)
    modifies d`trace
    ensures d.trace == old(d.trace) + [Call.TexImage2D(target, level, internalFormat, width, height, border,
                                                       format, pixelType, PayloadPointer(data))]
  {
    match data
    case Some(bytes) =>
      d.TexImage2D(target, level, internalFormat, width, height, border, format, pixelType, Ptr(bytes));
    case None =>
      d.TexImage2D(target, level, internalFormat, width, height, border, format, pixelType, Null);
  }

  /** tex_image_3d (desktop only). */
  method TexImage3D(d: Driver, target: GLenum, level: GLint, internalFormat: GLint, width: GLsizei, height: GLsizei,
                    depth: GLsizei, border: GLint, format: GLenum, pixelType: GLenum, data: Option<seq<Byte>>)
    requires d.platform == Desktop
    modifies d`trace
    ensures d.trace == old(d.trace) + [Call.TexImage3D(target, level, internalFormat, width, height, depth, border,
                                                       format, pixelType, PayloadPointer(data))]
  {
    d.TexImage3D(target, level, internalFormat, width, height, depth, border, format, pixelType, PayloadPointer(data));
  }

  // ---------------------------------------------------------------------------------------
  // Strings

  /** get_string: a null answer becomes the empty string; otherwise the bytes before the NUL are
      copied out, so the driver's pointer is not kept. */
  method GetString(d: Driver, which: GLenum) returns (s: seq<Byte>)
    requires d.Valid()
    modifies d`trace
    ensures d.trace == old(d.trace) + [Call.GetString(which)]
    ensures s == if which in d.strings then d.strings[which] else []
  {
    var p := d.GetString(which);
    if p.Ptr? {
      CStrOfCString(d.strings[which]);
      var n := Strlen(p.bytes, 0);
      s := p.bytes[..n];
    } else {
      s := [];
    }
  }

  /** `CString::new(name).unwrap()`: the name with a terminator, or a panic when the name holds
      a NUL.  What the native side then reads back is the name itself. */
  function CStringNew(name: seq<Byte>): (r: Result<seq<Byte>>)
    ensures r.Panicked? <==> !NoNul(name)
    ensures r.Panicked? ==> r.reason == InteriorNul
    ensures r.Ok? ==> r.value == CString(name) && HasNul(r.value, 0) && CStrBytes(r.value, 0) == name
  {
    if NoNul(name) then
      CStrOfCString(name);
      Ok(CString(name))
    else
      Panicked(InteriorNul)
  }

  /** bind_attrib_location. */
  method BindAttribLocation(d: Driver, program: GLuint, index: GLuint, name: seq<Byte>) returns (r: Result<()>)
    modifies d`trace
    ensures r.Panicked? <==> !NoNul(name)
    ensures r.Panicked? ==> r.reason == InteriorNul && d.trace == old(d.trace)
    ensures r.Ok? ==> d.trace == old(d.trace) + [Call.BindAttribLocation(program, index, name)]
  {
    var c := CStringNew(name);
    if c.Panicked? {
      return Panicked(c.reason);
    }
    d.BindAttribLocation(program, index, c.value);
    r := Ok(());
  }

  /** get_attrib_location, get_uniform_location, get_frag_data_location (the last desktop only). */
  method GetLocation(d: Driver, query: LocationKind, program: GLuint, name: seq<Byte>) returns (r: Result<GLint>)
    requires query == FragDataLocation ==> d.platform == Desktop
    modifies d`trace
    ensures r.Panicked? <==> !NoNul(name)
    ensures r.Panicked? ==> r.reason == InteriorNul && d.trace == old(d.trace)
    ensures r.Ok? ==> r.value == d.LocationOf(query, program, name)
                      && d.trace == old(d.trace) + [Call.GetLocation(query, program, name)]
  {
    var c := CStringNew(name);
    if c.Panicked? {
      return Panicked(c.reason);
    }
    var location := d.GetLocation(query, program, c.value);
    r := Ok(location);
  }
}
