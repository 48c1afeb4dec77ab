# gleam marshalling layer, modelled in Dafny

gleam is a thin Rust wrapper over generated OpenGL / OpenGL ES bindings. Its hand-written layer
(`src/gl.rs`) turns Rust values into the arguments native GL calls expect:

- It sizes the buffer `read_pixels` hands to `glReadPixels` and pins `PACK_ALIGNMENT` to 1 first.
- It builds the parallel pointer and length arrays of `glShaderSource`.
- It derives counts and byte sizes from slice lengths.
- It maps a missing texture payload to a null pointer.
- It passes names as NUL-terminated C strings.
- It trims the info logs the driver writes into a 1024-byte scratch buffer.

Its `utils` module (`src/lib.rs`) builds and reads NUL-terminated byte strings.

The project has four modules:

- `RustCore` (rust.dfy) holds the Rust semantics the code relies on, written out explicitly. These are the truncating `as` casts to `i32` and the sign-extending cast to `usize`, `i32` multiplication with overflow checks, the `isize::MAX` allocation limit behind "capacity overflow" panics, and `Vec::truncate`. A panic is a `Result` value (`Panicked(reason)`), never a precondition.
- `Utils` (utils.dfy) models `cstring_from_str`, `strlen` and `cstr_from_ptr`. A raw pointer is a byte sequence with a start index, and `strlen` is a loop proved against `NulIndex`, the index of the first NUL.
- `Ffi` (ffi.dfy) is the native side, known only through its interface. It has the GL types and enumerants and a `Driver` class. The driver records every call, with its marshalled arguments, in `trace`. Its queries (info logs, `glGetString`, variable locations) answer from oracle state, under the contracts the GL gives them. Its `requires` clauses say what the native side needs to stay inside the memory it is given. For example, `glReadPixels` needs a buffer spanning the packed image under the current pack state: the row alignment, the row length and the rows and pixels skipped. The build target (desktop or android) is the driver's `platform` field, not a `cfg`.
- `Gl` (gl.dfy) holds the wrappers. The pure parts are functions: the format and type tables, the buffer-length product, the length array, the uniform counts and the null-pointer choice. The parts that allocate a buffer, let the driver fill it in place and resize it are methods over arrays. Each wrapper's contract names the calls it appends to the trace and what it returns. Where the code can panic, the contract says when, and that no native call happens first.

Two behaviours of the code are easy to misread:

- The info-log getters keep `min(L - 1, 1024)` bytes for a reported length `L > 0`. A report of 1025 or more keeps all 1024 bytes, because `truncate` never lengthens. It is not cut to 1023.
- `cstr_from_ptr` in `src/lib.rs` returns the terminator as part of its slice. `get_string` uses the standard `CStr::to_bytes`, which leaves the terminator out.

## Model

| member | source | states |
|---|---|---|
| RustCore.AsI32 | src/gl.rs:34 | `n as i32` equals `n` modulo 2^32, is `n` itself when it fits, and never exceeds a non-negative `n` |
| RustCore.AsUsize | src/gl.rs:100 | `i32 as usize` keeps non-negative values and sends negative ones above `isize::MAX` |
| RustCore.MulI32 | src/gl.rs:69 | checked `i32` product: the exact product when it fits, a `MultiplyOverflow` panic otherwise |
| RustCore.Truncate | src/gl.rs:701 | `Vec::truncate(len)` keeps the first `min(len, |v|)` elements |
| Utils.NulIndex | src/lib.rs:41-48 | the first index at or after `p` holding 0; every byte before it is non-zero |
| Utils.Strlen | src/lib.rs:41-48 | the loop stops at the first 0 byte and returns its distance from the start; every byte it passes is non-zero |
| Utils.CString | src/lib.rs:36 | `cstring_from_str(s)` has length `|s| + 1`, begins with the bytes of `s` unchanged and ends in 0 |
| Utils.CStringFromStr | src/lib.rs:36 | the push-based construction yields `s` followed by one 0, with no interior-NUL check |
| Utils.CStr | src/lib.rs:50-52 | `cstr_from_ptr` yields `strlen + 1` bytes from the pointer, the last one the terminator, none before it 0 |
| Utils.CStrFromPtr | src/lib.rs:38-53 | the method returns exactly `CStr`: `strlen + 1` bytes ending in the terminator |
| Utils.CStrBytes | src/gl.rs:733 | `CStr::from_ptr(..).to_bytes()` yields the bytes before the first NUL, none of them 0 |
| Utils.CStrKeepsTerminator | src/lib.rs:52 | `cstr_from_ptr` returns what `to_bytes` returns plus the terminator |
| Utils.CStrOfCString | src/lib.rs:36-52 | for a string without 0 bytes, `cstr_from_ptr(cstring_from_str(s))` is `s` followed by one 0 |
| Utils.CStrStopsAtInteriorNul | src/lib.rs:36-52 | if `s` holds a 0, the round trip stops at the first one and is shorter than `|s| + 1` |
| Ffi.StorePack | src/gl.rs:91-95 | `glPixelStorei` sets one pack parameter; an illegal value or unknown name changes nothing; legal states stay legal; on android only the alignment exists |
| Ffi.PackedSizeUnpadded | src/gl.rs:74-76 | in the tight pack state (alignment 1, no row length, no skips) a pixel pack writes exactly width × height × components × component size bytes, and nothing for a negative side |
| Ffi.SourcesRead | src/gl.rs:36-37 | the native side reads one source per counted entry: the given number of bytes, or up to the NUL for a negative length |
| Ffi.Driver.PixelStorei | src/gl.rs:75 | the call is recorded and the pack state becomes `StorePack` of the old one; the driver stays valid |
| Ffi.Driver.ReadPixels | src/gl.rs:76 | needs a buffer spanning the packed size for the current alignment, row length and skips; writes nothing past it |
| Ffi.Driver.GenNames | src/gl.rs:101 | writes `n` names into an array of at least `n` and records them |
| Ffi.Driver.DeleteNames | src/gl.rs:154 | reads `n` names from a slice of at least `n` |
| Ffi.Driver.BufferData | src/gl.rs:25-28 | reads `size` bytes, which must not exceed the data supplied |
| Ffi.Driver.ShaderSource | src/gl.rs:36-37 | reads `count` entries of parallel arrays and records the sources it sees |
| Ffi.Driver.Uniform4fv | src/gl.rs:625-627 | reads `4 × count` floats, which must be present |
| Ffi.Driver.UniformMatrix4fv | src/gl.rs:634-637 | reads `16 × count` floats, which must be present |
| Ffi.Driver.TexImage2D | src/gl.rs:264-271 | records the data pointer, null or not |
| Ffi.Driver.TexImage3D | src/gl.rs:294-303 | records the data pointer, null or not |
| Ffi.Driver.GetInfoLog | src/gl.rs:697-700 | copies at most `bufSize - 1` log bytes then a NUL and reports the count without the NUL; nothing else in the buffer changes |
| Ffi.Driver.GetString | src/gl.rs:731 | returns null, or a NUL-terminated copy of the driver's string |
| Ffi.Driver.BindAttribLocation | src/gl.rs:210 | reads the name up to its NUL and records what it read |
| Ffi.Driver.GetLocation | src/gl.rs:674 | reads the name up to its NUL and answers that name's location, or -1 |
| Gl.ChannelCount | src/gl.rs:51-63 | channels are 3 for RGB/BGR, 4 for RGBA/BGRA and 1 for ALPHA/LUMINANCE; they agree with the GL's component count; BGR and BGRA are missing on android |
| Gl.BytesPerChannel | src/gl.rs:64-67 | only UNSIGNED_BYTE is accepted, with depth 1, its GL component size |
| Gl.ReadPixelsSize | src/gl.rs:51-71 | an unknown format panics first, then an unknown type; on success the length is width × height × colors × depth, fits in `i32`, and covers what the native side writes in the tight pack state |
| Gl.ReadPixelsSizeExact | src/gl.rs:69 | for non-negative sizes, a supported format and UNSIGNED_BYTE: the length is width × height × channels when that fits in `i32`, otherwise a multiply-overflow panic |
| Gl.ReadPixelsRgba | src/gl.rs:69 | an RGBA read of W × H returns 4·W·H bytes |
| Gl.ReadPixelsPlatformTables | src/gl.rs:51-62 | BGR/BGRA panic on android and are accepted on desktop; the android table is a restriction of the desktop one |
| Gl.ReadPixelsSizeInRange | src/gl.rs:69-71 | whenever width × height × channels fits in `i32`: a negative product panics with "capacity overflow", any other product (zero included) is the length |
| Gl.ReadPixelsBothNegative | src/gl.rs:69-71 | two negative dimensions give a positive length although the native side writes nothing |
| Gl.DefaultAlignmentOverruns | src/gl.rs:74-75 | at the GL's initial alignment of 4 a 1 × 2 RGB read writes 7 bytes into a 6-byte buffer, so the alignment must be pinned |
| Gl.PackStateOverruns | src/gl.rs:74-76 | at alignment 1, a skipped row or pixel, or a row length above the width on two or more rows, makes the pack span more than the bytes read_pixels allots |
| Gl.RowLengthOverruns | src/gl.rs:70-76 | after `pixel_store_i(PACK_ROW_LENGTH, 100)` a 1 × 2 RGB read reserves 6 bytes while the driver writes at least 303 |
| Gl.ReadPixels | src/gl.rs:50-81 | panics exactly when the size does, with no native call; otherwise records `PixelStorei(PACK_ALIGNMENT, 1)` then `ReadPixels` with a buffer of the computed length, and returns that many bytes |
| Gl.ReadPixelsFixed | src/gl.rs:50-81 | corrected: resets alignment, row length and skips before the read, so it needs no assumption on the pack state; otherwise as `Gl.ReadPixels` |
| Gl.InfoLogKeep | src/gl.rs:701 | keeps `L - 1` bytes for a reported `L > 0` and none otherwise; never longer than the buffer |
| Gl.ScratchAfterQuery | src/gl.rs:695-700 | the 1024-byte scratch buffer after the query holds the log's first `min(|log|, 1023)` bytes, then a 0 |
| Gl.InfoLogAsWritten | src/gl.rs:693-703 | the getter returns the log cut to 1023 bytes, less its last byte; empty for an empty log |
| Gl.InfoLogDropsLastByte | src/gl.rs:701 | every non-empty log shorter than 1024 bytes comes back one byte short: "ok" becomes "o" |
| Gl.InfoLogKeepFixed | src/gl.rs:701 | corrected rule: keep the reported length itself |
| Gl.InfoLogFixed | src/gl.rs:693-703 | with the corrected rule the getter returns the driver's log whole, cut only at 1023 bytes |
| Gl.GetInfoLog | src/gl.rs:693-726 | records one query with capacity 1024 and returns `InfoLogAsWritten` of the driver's log, never longer than 1024 |
| Gl.ShaderLengths | src/gl.rs:34 | the length array is parallel to the strings; entry i is the length of string i when it fits in `i32`, never more |
| Gl.SourcesReadExact | src/gl.rs:32-37 | with those lengths the native side reads every counted string whole |
| Gl.ShaderSource | src/gl.rs:32-41 | passes count = number of strings and the parallel length array; the driver reads exactly the given strings |
| Gl.BufferData | src/gl.rs:23-30 | passes byte size = element count × element size |
| Gl.UniformCount | src/gl.rs:626 | the count is ⌊len / width⌋ when that fits in `i32`, and never reads past the slice |
| Gl.Uniform4fv | src/gl.rs:623-629 | passes ⌊len / 4⌋ as the count |
| Gl.UniformMatrix4fv | src/gl.rs:632-639 | passes ⌊len / 16⌋ as the count |
| Gl.GenNames | src/gl.rs:98-141 | returns exactly `n` handles, those the driver wrote; a negative `n` panics with "capacity overflow" before any native call |
| Gl.DeleteNames | src/gl.rs:145-184 | passes the slice length as the count, with every name |
| Gl.PayloadPointer | src/gl.rs:260-293 | the data pointer is null exactly when no payload is given |
| Gl.TexImage2D | src/gl.rs:251-275 | records the call with a null pointer exactly when no data is given |
| Gl.TexImage3D | src/gl.rs:279-305 | records the call with a null pointer exactly when no data is given (desktop only) |
| Gl.GetString | src/gl.rs:729-738 | returns the driver's string without its terminator, or "" for a null answer |
| Gl.CStringNew | src/gl.rs:210 | `CString::new(name).unwrap()` panics exactly when the name holds a 0 byte; otherwise the native side reads the name back unchanged |
| Gl.BindAttribLocation | src/gl.rs:208-212 | panics on an interior NUL with no native call; otherwise the driver receives exactly the name |
| Gl.GetLocation | src/gl.rs:672-691 | panics on an interior NUL with no native call; otherwise returns the driver's location for exactly that name |

`GenNames`, `DeleteNames`, `GetInfoLog` and `GetLocation` each cover a family of Rust functions that differ only in the native entry point (`gen_buffers` … `gen_vertex_arrays`, `delete_*` including the `delete_frame_buffers` alias, both info-log getters, and the three location getters). The entry point is chosen by a kind argument. Functions that the android build compiles out (`gen_vertex_arrays`, `delete_vertex_arrays`, `tex_image_3d`, `get_frag_data_location`) require the desktop platform.

## Findings

| source | as written | input that shows it | evidently intended | confidence | as-written member | corrected member |
|---|---|---|---|---|---|---|
| src/gl.rs:74-76 | pins only `PACK_ALIGNMENT` before `glReadPixels` | `pixel_store_i(PACK_ROW_LENGTH, 100)` on desktop, then `read_pixels(0, 0, 1, 2, RGB, UNSIGNED_BYTE)`: 6 bytes are reserved and the driver writes 303 | reset `PACK_ROW_LENGTH`, `PACK_SKIP_ROWS` and `PACK_SKIP_PIXELS` to 0 as well, so that the buffer spans the pack | medium; not executed | Gl.RowLengthOverruns | Gl.ReadPixelsFixed |
| src/gl.rs:701 | keeps `result_len - 1` bytes of the info log | a program whose log is "ok": the driver reports 2 and the getter returns "o" | keep `result_len` bytes, because the GL reports the length without the terminator (the glGetProgramInfoLog / glGetShaderInfoLog reference pages) | medium; not executed | Gl.InfoLogDropsLastByte | Gl.InfoLogFixed |

`Gl.ReadPixels` keeps the code's single `PixelStorei` call, so it is only memory-safe when row length and skips are already 0, and it requires that. `Gl.ReadPixelsFixed` resets every pack parameter and needs no such assumption. `Gl.GetInfoLog` keeps the as-written rule so that it models the code; `Gl.InfoLogKeepFixed` and `Gl.InfoLogFixed` give the corrected rule and prove that it returns the driver's log.

## Left out

- Binding generation: `build.rs` and the `ffi`, `ffi_gl` and `ffi_gles` modules are produced by the external `gl_generator` crate from the Khronos registry. Registry resolution, emission and platform selection are not part of this model. The native side appears only as the `Ffi.Driver` interface.
- Pure pass-through wrappers (`pixel_store_i`, `bind_*`, `enable`, `disable`, `viewport`, `scissor`, `draw_arrays`, `attach_shader`, `compile_shader`, `link_program`, `create_*`, `delete_program`, `delete_shader`, `clear`, `flush`, `finish`, `get_error`, `read_buffer`, `tex_parameter_i`, `framebuffer_texture_*`, `copy_tex_sub_image_*`, `active_texture`, `depth_func`, `blend_*`, `color_mask`, `cull_face`, `front_face`, `hint`, `*_vertex_attrib_array`, `uniform_1i`, `depth_mask`, `clear_stencil`): they forward their arguments unchanged, so there is nothing to marshal. What `pixel_store_i` does to the pack state is modelled by `Ffi.Driver.PixelStorei`.
- Floating-point wrappers (`polygon_offset`, `line_width`, `blend_color`, `clear_color`, `uniform_1f/2f/4f`, `tex_parameter_f`, `depth_range`, `clear_depth`): floating point is not modelled.
- Raw pointer reinterpretation: `vertex_attrib_pointer*` and `draw_elements` turn an offset into a pointer, and `tex_sub_image_2d/3d` pass `data.as_ptr()` without any size. `get_integer_v`, `get_program_iv` and `get_shader_iv` pass an out-pointer. The android `extern` `glEGLImageTargetTexture2DOES` is a foreign call.
- UTF-8: `String::from_utf8(..).unwrap()` and `from_utf8_unchecked` are not modelled. Results are byte sequences, so the UTF-8 panic of the info-log getters is absent.
- Pixel contents: the model tracks the length of the buffer `read_pixels` returns, not the bytes in it. When the driver writes fewer bytes than `set_len` exposes (both sizes negative), those bytes are uninitialised memory. That is not captured.
- Allocation failure: an allocation that passes the `isize::MAX` check but cannot be satisfied aborts the process. It is not modelled.
- Object names: the driver's contract does not say the names `glGen*` writes are unused or non-zero. It only says which names were written and returned.
- ReadPixelsSize: models `i32` multiplication with overflow checks, as in a debug build. In a build without overflow checks the product wraps instead.
- ShaderSource: requires every string to fit in `i32`. For a longer string the code would pass a wrapped length. A negative wrapped length makes the native side read up to a NUL.
- TexImage2D: neither the code nor the model checks that a payload is as large as the image it describes. The source marks this with a FIXME.
- Ffi.Driver.ReadPixels: no `PIXEL_PACK_BUFFER` binding is modelled. With a pack buffer bound, the GL writes into the buffer object instead of client memory, and the bytes `read_pixels` exposes with `set_len` stay uninitialised.
- Gl.ReadPixels: requires the pack row length and skips to be 0. With other values the code hands the driver a buffer that is too small, which is undefined behaviour rather than an outcome the model can describe (see Findings).
- Concurrency: there is none in the code shown. The wrappers assume the GL context is current on the calling thread.
