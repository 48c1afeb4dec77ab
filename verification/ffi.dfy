/** The native side, seen only through its interface: the GL scalar types and enumerants the
    wrappers use, and an abstract driver.  The driver records every call it receives, with the
    arguments as marshalled, in `trace`; its queries answer from oracle state (info logs, strings,
    variable locations) under the contracts the GL specification gives those entry points; and its
    `requires` clauses are what the native side needs from its caller so that it neither reads
    nor writes past the memory it is handed. */
module Ffi {
  import opened RustCore
  import opened Utils

  type GLenum = x: int | 0 <= x < 0x1_0000_0000
  type GLuint = x: int | 0 <= x < 0x1_0000_0000
  type GLint = I32
  type GLsizei = I32

  // Pixel formats
  const RED: GLenum := 0x1903
  const ALPHA: GLenum := 0x1906
  const RGB: GLenum := 0x1907
  const RGBA: GLenum := 0x1908
  const LUMINANCE: GLenum := 0x1909
  const LUMINANCE_ALPHA: GLenum := 0x190A
  const BGR: GLenum := 0x80E0
  const BGRA: GLenum := 0x80E1
  const RG: GLenum := 0x8227

  // Component types
  const BYTE: GLenum := 0x1400
  const UNSIGNED_BYTE: GLenum := 0x1401
  const SHORT: GLenum := 0x1402
  const UNSIGNED_SHORT: GLenum := 0x1403
  const INT: GLenum := 0x1404
  const UNSIGNED_INT: GLenum := 0x1405
  const FLOAT: GLenum := 0x1406
  const HALF_FLOAT: GLenum := 0x140B

  // Pixel storage parameters
  const UNPACK_ALIGNMENT: GLenum := 0x0CF5
  const PACK_ROW_LENGTH: GLenum := 0x0D02
  const PACK_SKIP_ROWS: GLenum := 0x0D03
  const PACK_SKIP_PIXELS: GLenum := 0x0D04
  const PACK_ALIGNMENT: GLenum := 0x0D05

  /** The build target: the embedded (android, GLES) build leaves some formats and entry points out. */
  datatype Platform = Desktop | Android

  /** The kinds of GL object that `gen_*` / `delete_*` manage. */
  datatype ObjectKind = Buffers | Renderbuffers | Framebuffers | Textures | VertexArrays

  /** Whose diagnostics an info-log query reads. */
  datatype LogKind = ProgramLog | ShaderLog

  /** Which per-program variable-location query is made. */
  datatype LocationKind = AttribLocation | UniformLocation | FragDataLocation

  /** A `const void *` data argument: null, or a pointer to the bytes behind it. */
  datatype ConstPtr = Null | Ptr(bytes: seq<Byte>)

  /** One native call, with its arguments as the native side received them. */
  datatype Call =
    | BufferData(target: GLenum, size: int, usage: GLenum)
    | ShaderSource(shader: GLuint, count: GLsizei, lengths: seq<GLint>, sources: seq<seq<Byte>>)
    | PixelStorei(pname: GLenum, param: GLint)
    | ReadPixels(x: GLint, y: GLint, width: GLsizei, height: GLsizei, format: GLenum, pixelType: GLenum, capacity: nat)
    | GenNames(objects: ObjectKind, n: GLsizei, names: seq<GLuint>)
    | DeleteNames(objects: ObjectKind, n: GLsizei, names: seq<GLuint>)
    | Uniform4fv(location: GLint, count: GLsizei)
    | UniformMatrix4fv(location: GLint, count: GLsizei, transpose: bool)
    | TexImage2D(target: GLenum, level: GLint, internalFormat: GLint, width: GLsizei, height: GLsizei,
                 border: GLint, format: GLenum, pixelType: GLenum, data: ConstPtr)
    | TexImage3D(target: GLenum, level: GLint, internalFormat: GLint, width: GLsizei, height: GLsizei,
                 depth: GLsizei, border: GLint, format: GLenum, pixelType: GLenum, data: ConstPtr)
    | GetInfoLog(log: LogKind, id: GLuint, bufSize: GLsizei)
    | GetString(which: GLenum)
    | BindAttribLocation(program: GLuint, index: GLuint, name: seq<Byte>)
    | GetLocation(query: LocationKind, program: GLuint, name: seq<Byte>)

  /** Components per pixel of a client pixel format, as the GL defines it (0: not a format). */
  function Components(format: GLenum): nat
  {
    if format == RED || format == ALPHA || format == LUMINANCE then 1
    else if format == RG || format == LUMINANCE_ALPHA then 2
    else if format == RGB || format == BGR then 3
    else if format == RGBA || format == BGRA then 4
    else 0
  }

  /** Bytes per component of a client component type, as the GL defines it (0: not a type). */
  function ComponentSize(pixelType: GLenum): nat
  {
    if pixelType == UNSIGNED_BYTE || pixelType == BYTE then 1
    else if pixelType == UNSIGNED_SHORT || pixelType == SHORT || pixelType == HALF_FLOAT then 2
    else if pixelType == UNSIGNED_INT || pixelType == INT || pixelType == FLOAT then 4
    else 0
  }

  /** The pixel-pack parameters that decide where `glReadPixels` writes in client memory:
      the row alignment, the row length in pixels (0: the image width) and the rows and pixels
      skipped before the first one written. */
  datatype PackState = PackState(alignment: int, rowLength: int, skipRows: int, skipPixels: int)
  {
    /** The values `glPixelStorei` accepts: an alignment of 1, 2, 4 or 8 and no negative count. */
    predicate Legal()
    {
      alignment in {1, 2, 4, 8} && rowLength >= 0 && skipRows >= 0 && skipPixels >= 0
    }
  }

  /** The GL's initial pack state. */
  const INITIAL_PACK: PackState := PackState(4, 0, 0, 0)

  /** Rows packed back to back, from the start of the buffer. */
  const TIGHT_PACK: PackState := PackState(1, 0, 0, 0)

  /** The pack state after `glPixelStorei(pname, param)`.  An unknown name or an illegal value
      is an error that changes nothing; OpenGL ES 2.0, the android target, has PACK_ALIGNMENT
      as its only pack parameter. */
  function StorePack(platform: Platform, pack: PackState, pname: GLenum, param: GLint): (r: PackState)
    ensures pack.Legal() ==> r.Legal()
    ensures r.alignment == if pname == PACK_ALIGNMENT && param in {1, 2, 4, 8} then param else pack.alignment
    ensures r.rowLength == if platform.Desktop? && pname == PACK_ROW_LENGTH && param >= 0 then param else pack.rowLength
    ensures r.skipRows == if platform.Desktop? && pname == PACK_SKIP_ROWS && param >= 0 then param else pack.skipRows
    ensures r.skipPixels == if platform.Desktop? && pname == PACK_SKIP_PIXELS && param >= 0 then param else pack.skipPixels
  {
    if pname == PACK_ALIGNMENT then
      if param in {1, 2, 4, 8} then pack.(alignment := param) else pack
    else if platform == Android || param < 0 then pack
    else if pname == PACK_ROW_LENGTH then pack.(rowLength := param)
    else if pname == PACK_SKIP_ROWS then pack.(skipRows := param)
    else if pname == PACK_SKIP_PIXELS then pack.(skipPixels := param)
    else pack
  }

  /** Bytes of client memory a pixel pack spans, from the start of the buffer to the end of the
      last pixel written, for a `width` x `height` image of `components` components of `size`
      bytes each.  Rows lie `rowLength` pixels apart (the width when that is 0), padded to a
      multiple of the alignment unless a component is already at least that wide; the first
      `skipRows` rows and, in each row, the first `skipPixels` pixels are passed over.  Nothing is
      written for an empty or invalid (negative) rectangle or an unknown format. */
  function PackedSize(width: int, height: int, components: nat, size: nat, pack: PackState): nat
    requires pack.Legal()
  {
    if width <= 0 || height <= 0 || components == 0 || size == 0 then 0
    else
      var rowPixels: nat := if pack.rowLength > 0 then pack.rowLength else width;
      var rowBytes := rowPixels * components * size;
      var stride := if size >= pack.alignment then rowBytes
                    else pack.alignment * ((rowBytes + pack.alignment - 1) / pack.alignment);
      var rows := pack.skipRows + height - 1;
      var lastRow := (pack.skipPixels + width) * components * size;
      PackedSizeTermsNonNegative(rowPixels, pack.skipPixels + width, components, size, pack.alignment, rows);
      stride * rows + lastRow
  }

  /** Every term of `PackedSize` is a product of counts, so none is negative. */
  lemma PackedSizeTermsNonNegative(rowPixels: nat, lastPixels: nat, components: nat, size: nat, alignment: nat, rows: nat)
    requires alignment >= 1
    ensures var rowBytes := rowPixels * components * size;
            && rowBytes >= 0
            && alignment * ((rowBytes + alignment - 1) / alignment) >= 0
            && rowBytes * rows >= 0
            && alignment * ((rowBytes + alignment - 1) / alignment) * rows >= 0
            && lastPixels * components * size >= 0
  {
    var rowBytes := rowPixels * components * size;
    var padded := (rowBytes + alignment - 1) / alignment;
    assert padded >= 0;
    assert alignment * padded >= 0;
  }

  /** In the tight pack state rows are not padded: a pack writes exactly width x height x
      components x size bytes, and nothing for a rectangle with a negative side. */
  lemma PackedSizeUnpadded(width: int, height: int, components: nat, size: nat)
    ensures PackedSize(width, height, components, size, TIGHT_PACK)
            == if width < 0 || height < 0 then 0 else width * height * components * size
  {
    if width > 0 && height > 0 && components > 0 && size > 0 {
      var rowBytes := width * components * size;
      assert rowBytes * (height - 1) + rowBytes == rowBytes * height;
      assert rowBytes * height == width * height * components * size;
    } else if width >= 0 && height >= 0 {
      assert width * height * components * size == 0;
    }
  }

  /** The sources a `glShaderSource` call reads: for entry i, `lengths[i]` bytes of string i when
      that length is not negative, and the string up to its NUL otherwise. */
  function SourcesRead(strings: seq<seq<Byte>>, lengths: seq<GLint>, count: int): (r: seq<seq<Byte>>)
    requires count <= |strings| && |lengths| == |strings|
    requires forall i :: 0 <= i < count ==> lengths[i] <= |strings[i]|
    requires forall i :: 0 <= i < count && lengths[i] < 0 ==> HasNul(strings[i], 0)
    ensures |r| == if count < 0 then 0 else count
  {
    if count <= 0 then []
    else
      SourcesRead(strings, lengths, count - 1)
        + [if lengths[count - 1] >= 0 then strings[count - 1][..lengths[count - 1]]
           else CStrBytes(strings[count - 1], 0)]
  }

  class Driver {
    /** The build target the bindings were generated for. */
    const platform: Platform
    /** Every native call received so far, oldest first. */
    var trace: seq<Call>
    /** Current pixel-pack parameters. */
    var pack: PackState
    /** Oracle: the info logs the driver holds for programs and for shaders. */
    var programLogs: map<GLuint, seq<Byte>>
    var shaderLogs: map<GLuint, seq<Byte>>
    /** Oracle: the strings `glGetString` returns; a missing key answers null. */
    var strings: map<GLenum, seq<Byte>>
    /** Oracle: variable locations by query kind, program and name; a missing key answers -1. */
    var locations: map<(LocationKind, GLuint, seq<Byte>), GLint>

    ghost predicate Valid()
      reads this
    {
      && pack.Legal()
      && (platform == Android ==> pack.rowLength == 0 && pack.skipRows == 0 && pack.skipPixels == 0)
      && (forall w :: w in strings ==> NoNul(strings[w]))
    }

    constructor (platform: Platform, programLogs: map<GLuint, seq<Byte>>, shaderLogs: map<GLuint, seq<Byte>>,
                 strings: map<GLenum, seq<Byte>>, locations: map<(LocationKind, GLuint, seq<Byte>), GLint>)
      requires forall w :: w in strings ==> NoNul(strings[w])
      ensures Valid() && trace == [] && pack == INITIAL_PACK
      ensures this.platform == platform && this.programLogs == programLogs && this.shaderLogs == shaderLogs
      ensures this.strings == strings && this.locations == locations
    {
      this.platform := platform;
      trace := [];
      pack := INITIAL_PACK;
      this.programLogs := programLogs;
      this.shaderLogs := shaderLogs;
      this.strings := strings;
      this.locations := locations;
    }

    /** The log a query of kind `log` on `id` reads (empty when there is none). */
    function LogOf(log: LogKind, id: GLuint): seq<Byte>
      reads this
    {
      var logs := if log == ProgramLog then programLogs else shaderLogs;
      if id in logs then logs[id] else []
    }

    /** The location a query answers (-1 when the name is not an active variable). */
    function LocationOf(query: LocationKind, program: GLuint, name: seq<Byte>): GLint
      reads this
    {
      if (query, program, name) in locations then locations[(query, program, name)] else -1
    }

    /** glPixelStorei: sets one pack parameter, as `StorePack` says. */
    method PixelStorei(pname: GLenum, param: GLint)
      requires Valid()
      modifies this`trace, this`pack
      ensures Valid()
      ensures trace == old(trace) + [Call.PixelStorei(pname, param)]
      ensures pack == StorePack(platform, old(pack), pname, param)
    {
      trace := trace + [Call.PixelStorei(pname, param)];
      pack := StorePack(platform, pack, pname, param);
    }

    /** glReadPixels writes the packed image into `pixels`, so the buffer must span the packed
        size under the current pack state; nothing past that size is touched.  No pixel pack
        buffer is ever bound, so the pointer always names client memory. */
    method ReadPixels(x: GLint, y: GLint, width: GLsizei, height: GLsizei, format: GLenum, pixelType: GLenum,
                      pixels: array<Byte>)
      requires Valid()
      requires PackedSize(width, height, Components(format), ComponentSize(pixelType), pack) <= pixels.Length
      modifies this`trace, pixels
      ensures trace == old(trace) + [Call.ReadPixels(x, y, width, height, format, pixelType, pixels.Length)]
      ensures var written := PackedSize(width, height, Components(format), ComponentSize(pixelType), pack);
              pixels[written..] == old(pixels[written..])
    {
      trace := trace + [Call.ReadPixels(x, y, width, height, format, pixelType, pixels.Length)];
    }

    /** glGen*: writes `n` new names into `names`. */
    method GenNames(objects: ObjectKind, n: GLsizei, names: array<GLuint>)
      requires 0 <= n <= names.Length
      modifies this`trace, names
      ensures names[n..] == old(names[n..])
      ensures trace == old(trace) + [Call.GenNames(objects, n, names[..n])]
    {
      forall i | 0 <= i < n {
        names[i] := i + 1;
      }
      trace := trace + [Call.GenNames(objects, n, names[..n])];
    }

    /** glDelete*: reads `n` names. */
    method DeleteNames(objects: ObjectKind, n: GLsizei, names: seq<GLuint>)
      requires n <= |names|
      modifies this`trace
      ensures trace == old(trace) + [Call.DeleteNames(objects, n, if n < 0 then [] else names[..n])]
    {
      trace := trace + [Call.DeleteNames(objects, n, if n < 0 then [] else names[..n])];
    }

    /** glBufferData: reads `size` bytes from data that holds `available` bytes. */
    method BufferData(target: GLenum, size: int, available: nat, usage: GLenum)
      requires size <= available
      modifies this`trace
      ensures trace == old(trace) + [Call.BufferData(target, size, usage)]
    {
      trace := trace + [Call.BufferData(target, size, usage)];
    }

    /** glShaderSource: reads `count` entries of the pointer and length arrays and, for each,
        either the given number of bytes or a NUL-terminated string. */
    method ShaderSource(shader: GLuint, count: GLsizei, strings: seq<seq<Byte>>, lengths: seq<GLint>)
      requires count <= |strings| && |lengths| == |strings|
      requires forall i :: 0 <= i < count ==> lengths[i] <= |strings[i]|
      requires forall i :: 0 <= i < count && lengths[i] < 0 ==> HasNul(strings[i], 0)
      modifies this`trace
      ensures trace == old(trace) + [Call.ShaderSource(shader, count, lengths, SourcesRead(strings, lengths, count))]
    {
      trace := trace + [Call.ShaderSource(shader, count, lengths, SourcesRead(strings, lengths, count))];
    }

    /** glUniform4fv: reads `count` vec4 values from data that holds `available` floats. */
    method Uniform4fv(location: GLint, count: GLsizei, available: nat)
      requires 4 * count <= available
      modifies this`trace
      ensures trace == old(trace) + [Call.Uniform4fv(location, count)]
    {
      trace := trace + [Call.Uniform4fv(location, count)];
    }

    /** glUniformMatrix4fv: reads `count` 4x4 matrices from data that holds `available` floats. */
    method UniformMatrix4fv(location: GLint, count: GLsizei, transpose: bool, available: nat)
      requires 16 * count <= available
      modifies this`trace
      ensures trace == old(trace) + [Call.UniformMatrix4fv(location, count, transpose)]
    {
      trace := trace + [Call.UniformMatrix4fv(location, count, transpose)];
    }

    method TexImage2D(target: GLenum, level: GLint, internalFormat: GLint, width: GLsizei, height: GLsizei,
                      border: GLint, format: GLenum, pixelType: GLenum, data: ConstPtr)
      modifies this`trace
      ensures trace == old(trace) + [Call.TexImage2D(target, level, internalFormat, width, height, border, format, pixelType, data)]
    {
      trace := trace + [Call.TexImage2D(target, level, internalFormat, width, height, border, format, pixelType, data)];
    }

    method TexImage3D(target: GLenum, level: GLint, internalFormat: GLint, width: GLsizei, height: GLsizei,
                      depth: GLsizei, border: GLint, format: GLenum, pixelType: GLenum, data: ConstPtr)
      modifies this`trace
      ensures trace == old(trace) + [Call.TexImage3D(target, level, internalFormat, width, height, depth, border, format, pixelType, data)]
    {
      trace := trace + [Call.TexImage3D(target, level, internalFormat, width, height, depth, border, format, pixelType, data)];
    }

    /** glGetProgramInfoLog / glGetShaderInfoLog: copies as much of the log as fits in
        `bufSize - 1` bytes, then a NUL, and reports the number of bytes copied, the NUL not
        counted.  With `bufSize` 0 nothing is written. */
    method GetInfoLog(log: LogKind, id: GLuint, bufSize: GLsizei, buf: array<Byte>) returns (length: GLsizei)
      requires 0 <= bufSize <= buf.Length
      modifies this`trace, buf
      ensures trace == old(trace) + [Call.GetInfoLog(log, id, bufSize)]
      ensures length == if bufSize == 0 then 0 else Min(|LogOf(log, id)|, bufSize - 1)
      ensures buf[..length] == LogOf(log, id)[..length]
      ensures bufSize == 0 ==> buf[..] == old(buf[..])
      ensures bufSize > 0 ==> buf[length] == 0 && buf[length + 1..] == old(buf[length + 1..])
    {
      var text := LogOf(log, id);
      length := if bufSize == 0 then 0 else Min(|text|, bufSize - 1);
      forall i | 0 <= i < length {
        buf[i] := text[i];
      }
      if bufSize > 0 {
        buf[length] := 0;
      }
      trace := trace + [Call.GetInfoLog(log, id, bufSize)];
    }

    /** glGetString: a pointer to a NUL-terminated string the driver owns, or null. */
    method GetString(which: GLenum) returns (p: ConstPtr)
      requires Valid()
      modifies this`trace
      ensures trace == old(trace) + [Call.GetString(which)]
      ensures p == if which in strings then Ptr(CString(strings[which])) else Null
    {
      trace := trace + [Call.GetString(which)];
      p := if which in strings then Ptr(CString(strings[which])) else Null;
    }

    /** glBindAttribLocation: reads the name as a NUL-terminated string. */
    method BindAttribLocation(program: GLuint, index: GLuint, name: seq<Byte>)
      requires HasNul(name, 0)
      modifies this`trace
      ensures trace == old(trace) + [Call.BindAttribLocation(program, index, CStrBytes(name, 0))]
    {
      trace := trace + [Call.BindAttribLocation(program, index, CStrBytes(name, 0))];
    }

    /** glGetAttribLocation / glGetUniformLocation / glGetFragDataLocation: reads the name as a
        NUL-terminated string and answers its location, or -1. */
    method GetLocation(query: LocationKind, program: GLuint, name: seq<Byte>) returns (location: GLint)
      requires HasNul(name, 0)
      modifies this`trace
      ensures trace == old(trace) + [Call.GetLocation(query, program, CStrBytes(name, 0))]
      ensures location == LocationOf(query, program, CStrBytes(name, 0))
    {
      trace := trace + [Call.GetLocation(query, program, CStrBytes(name, 0))];
      location := LocationOf(query, program, CStrBytes(name, 0));
    }
  }
}
