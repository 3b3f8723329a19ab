# split_png in Dafny

This project models `vidtest/split_png.c`. The program is a command-line tool built on libpng. It reads one PNG image and writes its left half and its right half to two new PNG files. The main steps are:

- It checks that it got exactly three file names.
- It opens the input and checks the eight-byte PNG signature (section 5.2 of the PNG specification).
- It asks libpng to normalise the image to 8-bit RGB or RGBA: expand palettes, turn tRNS into alpha, strip 16-bit samples to 8, and turn grey into RGB. It refuses any other final format.
- It reads the image into one heap buffer per row.
- It splits each row at column `width / 2`, so an odd last column goes to the right half. It copies each half into its own heap buffer.
- It writes the left half, then the right half. Each half is written with its own IHDR: the half's width, the decoded (post-transform) height, depth and colour type, no interlacing, and the base compression and filter methods.
- It leaves through the `cleanup_splits` and `cleanup_orig` labels, which free the buffers.

The model has four modules:

- `Png`: the signature check, the colour-type codes, the transform requests, and the accepted final format.
- `Geometry`: the split widths, the byte ranges of the two halves, and the two output headers.
- `Pipeline`: where a run stops, its exit status and what ends up in each output file. These are functions of an `Env` value; the two output-file functions also assume the decoder guarantees `Pipeline.Wf` (see "Left out"). `Env` gathers everything outside the program: the argument count, whether files open, what the decoder reports, which `malloc` calls return NULL, and at which stage each encoder fails.
- `SplitPng`: the body of `main`, step by step, as the class `Splitter`.
  - The three row-pointer arrays are heap `array`s of row buffers.
  - Ghost state records the live heap buffers, the open files and libpng structs, every handle ever acquired, and every `malloc` call made.
  - Each `goto` and each `setjmp`/`longjmp` becomes a branch.
  - `Run` is proved to end exactly where `Pipeline.ExpectedStop` says. It returns the exit code, the transform requests and the two output files that `Pipeline` predicts. Its final state says which buffers are still allocated: everything is freed, except where the C code leaks.

After decoding succeeds, every exit goes through `cleanup_orig` (split_png.c:366-373), which returns `EXIT_SUCCESS`. This holds even after a failed split allocation or a failed write of either half. `Pipeline.ExitCode` and `Pipeline.ExitSuccessIffDecoded` state this.

The code also leaks memory on two paths, and the model states both leaks instead of hiding them:

- A fatal error in `png_read_image` or `png_read_end` reaches the read handler at lines 87-94, which does not free the original rows.
- When only one of `left_rows`/`right_rows` is allocated (lines 199-204), the jump to `cleanup_orig` never frees it.

## Model

| member | source | states |
|---|---|---|
| `Png.CheckSignature` | vidtest/split_png.c:45-61 | The input is too short exactly when it has fewer than eight bytes. It passes exactly when its first eight bytes equal the PNG signature byte for byte. Any other input is a mismatch. |
| `Png.TransformsFor` | vidtest/split_png.c:125-133 | Palette expansion is requested iff the colour type is palette. tRNS-to-alpha is requested iff a tRNS chunk is present. Stripping is requested iff the depth is 16. Grey-to-RGB is requested iff the type is grey or grey+alpha. Requests come in the order the code issues them. |
| `Png.SupportedFinal` | vidtest/split_png.c:147-148 | An accepted final format is a legal PNG depth for its colour type with 3 or 4 samples per pixel; it is never palette or greyscale. |
| `Png.SupportedFinalIsEightBitTruecolour` | vidtest/split_png.c:147-148 | An accepted final format is exactly an 8-bit colour type that the PNG specification allows at that depth and that has at least three samples. Such a format therefore has 3 or 4 bytes per pixel. |
| `Geometry.LeftWidth` | vidtest/split_png.c:194 | The left width is the largest half that fits: two left widths never exceed the width, and at most one column is left over. |
| `Geometry.RightWidth` | vidtest/split_png.c:195 | The two widths add up to the full width. The right half is as wide as the left half, or one column wider, and it is one column wider exactly when the width is odd. |
| `Geometry.SplitOffset` | vidtest/split_png.c:231 | The right half's bytes start at this offset, and they run to exactly `width * channels`. |
| `Geometry.LeftPart` | vidtest/split_png.c:225-227 | A left row has `LeftWidth * channels` bytes, each equal to the original row's byte at the same position. |
| `Geometry.RightPart` | vidtest/split_png.c:230-232 | A right row has `RightWidth * channels` bytes. Byte i is the original row's byte at the split offset plus i. |
| `Geometry.HalvesRejoin` | vidtest/split_png.c:225-232 | For a row of exactly `width * channels` bytes, the left part followed by the right part is the original row: no byte is lost or duplicated. |
| `Geometry.ByteIndex` | vidtest/split_png.c:196 | With one byte per sample, byte b of pixel x of a row `width` pixels wide lies within the row's `width * channels` bytes. |
| `Geometry.PixelCoverage` | vidtest/split_png.c:194-196 | Every byte of pixel column x lands in exactly one half. A column left of `LeftWidth` keeps its position in the left half. Any other column x lands at column `x - LeftWidth` of the right half. |
| `Geometry.HalfHeader` | vidtest/split_png.c:277-283 | A half's IHDR carries the half's width, the decoded height, depth and colour type, no interlacing, and the base compression and filter methods. |
| `Geometry.LeftHeader` | vidtest/split_png.c:277-283 | The left IHDR has the left width, and its dimensions are acceptable exactly when the image is at least two pixels wide, at most 2^32 - 1 wide, and its height is between 1 and 2^31 - 1. |
| `Geometry.RightHeader` | vidtest/split_png.c:335-341 | The right IHDR has the right width, and its dimensions are acceptable exactly when the image is at least one pixel wide, at most 2^32 - 2 wide, and its height is between 1 and 2^31 - 1. |
| `Geometry.HeadersPartitionWidth` | vidtest/split_png.c:277-283 | The two output IHDRs differ only in width, and their widths add up to the decoded width. Each keeps the decoded height, depth and colour type, uses no interlacing, and uses the base compression and filter methods. |
| `Geometry.WidthOneLeftHeaderInvalid` | vidtest/split_png.c:277-283 | For a one-pixel-wide image the left IHDR has width zero, which section 11.2.2 of the PNG specification forbids. The right IHDR keeps the single column and is valid when the height is. |
| `Geometry.LeftImage` | vidtest/split_png.c:207-227 | The left half image has one row per decoded row. Row y is the left part of decoded row y and is `LeftWidth * channels` bytes long. |
| `Geometry.RightImage` | vidtest/split_png.c:207-233 | The right half image has one row per decoded row. Row y is the right part of decoded row y and is `RightWidth * channels` bytes long. |
| `Geometry.ImageRejoin` | vidtest/split_png.c:207-233 | Both half images have one row per decoded row, and each row has its half's width in bytes. Left row y followed by right row y is decoded row y. |
| `Pipeline.FirstOrigRowFailure` | vidtest/split_png.c:167-180 | The result is the first row index whose `malloc` returns NULL, or the height if there is none: every earlier row allocation succeeds, and the one at the result fails. |
| `Pipeline.FirstSplitRowFailure` | vidtest/split_png.c:207-222 | The result is the first row index where the left or the right row allocation returns NULL, or the height if there is none: every earlier row allocates both halves. |
| `Pipeline.HeaderStop` | vidtest/split_png.c:22-156 | The header phase lets a run through exactly when there are three file names, the input opens, the signature matches, both read structs are created, `png_read_info` and `png_read_update_info` return, and the final format is accepted. The usage stop happens exactly when the argument count is wrong. Every header stop exits with `EXIT_FAILURE`. |
| `Pipeline.OrigRowsStop` | vidtest/split_png.c:158-180 | The original rows are allocated exactly when the pointer array and every row allocate. A row stop names a row whose `malloc` failed while every earlier row's succeeded. |
| `Pipeline.DecodeStop` | vidtest/split_png.c:22-189 | Decoding gets through exactly when the header phase, the original-row allocation, `png_read_image` and `png_read_end` all succeed. Every decode stop exits with `EXIT_FAILURE`. |
| `Pipeline.SplitStop` | vidtest/split_png.c:198-233 | The split gets through exactly when both pointer arrays and every left and right row allocate. A row stop names a row where one half failed while every earlier row allocated both. |
| `Pipeline.WriteStop` | vidtest/split_png.c:238-292 | Writing a half succeeds exactly when no stage fails and the header's dimensions are acceptable. A bad header fails at `png_set_IHDR` or earlier. The output stays absent exactly when `fopen` fails. With acceptable dimensions, the stage that fails is the oracle's. |
| `Pipeline.FileAfter` | vidtest/split_png.c:238-292 | An output is complete exactly when its write succeeds, and then it holds the given header and rows. It is absent exactly when `fopen` fails; otherwise it is incomplete. |
| `Pipeline.WritesStop` | vidtest/split_png.c:238-350 | The writes complete exactly when both halves succeed. They stop at the left half exactly when the left write fails, naming its failing stage; otherwise a right failure names the right write's failing stage. |
| `Pipeline.AfterDecode` | vidtest/split_png.c:194-373 | After decoding, every stop exits with `EXIT_SUCCESS`. The run completes exactly when the split and both writes succeed, and a write failure implies the split succeeded. |
| `Pipeline.ExpectedTransforms` | vidtest/split_png.c:109-133 | Transform requests are issued only once `png_read_info` has returned. A run that gets through the header phase issues exactly `TransformsFor` of the source header, and one that stops at or before `png_read_info` issues none. |
| `Pipeline.ExpectedLeftFile` | vidtest/split_png.c:238-292 | The left output exists only when decoding and the split succeeded. It is complete exactly when the run completes or fails on the right half, and then it holds the left header and the left half image. |
| `Pipeline.ExpectedRightFile` | vidtest/split_png.c:297-350 | The right output exists only when decoding, the split and the left write all succeeded. It is complete exactly when the run completes, and then it holds the right header and the right half image. |
| `Pipeline.LeaksOriginalRows` | vidtest/split_png.c:87-94 | The original rows leak exactly on the read-handler exits taken from `png_read_image` or `png_read_end` (lines 183 and 186), after the rows were allocated. Both exit with `EXIT_FAILURE`. |
| `Pipeline.ExpectedStop` | vidtest/split_png.c:20-374 | A run completes exactly when decoding, the split and both writes succeed. A decoding failure is where the run stops. |
| `Pipeline.ExitCode` | vidtest/split_png.c:25-373 | The exit status is `EXIT_SUCCESS` or `EXIT_FAILURE`. Every stop after decoding (split, write, or completion) gives `EXIT_SUCCESS`. The usage, open, read and allocation stops before it give `EXIT_FAILURE`. |
| `Pipeline.SplitPixelSize` | vidtest/split_png.c:144-196 | Assuming the decoder guarantee in `Pipeline.Wf` that `channels` is the colour type's sample count, once the format check passes the bytes per pixel used by the split are 3 or 4. |
| `Pipeline.ExitSuccessIffDecoded` | vidtest/split_png.c:366-373 | A run exits with `EXIT_SUCCESS` exactly when decoding got past `png_read_end`. This holds even when the split or a write then fails. |
| `Pipeline.SignatureGate` | vidtest/split_png.c:45-61 | With the usage check passed and the input open, input shorter than eight bytes stops as too short, and eight bytes that are not the signature stop as a bad signature. Both exit with `EXIT_FAILURE` before any transform is requested. |
| `Pipeline.FinalFormatGate` | vidtest/split_png.c:147-156 | Once the updated header is available, a run stops at the format check exactly when the result is not 8-bit RGB or RGBA. |
| `Pipeline.LeftFailureSkipsRight` | vidtest/split_png.c:238-302 | A failure while writing the left half means the right output is never created. If the left file was opened, it stays incomplete. A failure on the right half means the left file is complete. |
| `Pipeline.CompletedRunRejoins` | vidtest/split_png.c:194-350 | A completed run writes both files, each with its own half header and one row per image row. When `rowbytes == width * channels` (a hypothesis of the lemma), each decoded row is its left row followed by its right row; with wider rows the padding bytes are in neither half. |
| `Pipeline.WidthOneNeverCompletes` | vidtest/split_png.c:277-292 | A one-pixel-wide image that decodes and splits always fails while writing the left half, at IHDR time or earlier. The right output is never created, and the run still exits with `EXIT_SUCCESS`. |
| `SplitPng.RequestTransforms` | vidtest/split_png.c:125-133 | The four conditional requests produce exactly `TransformsFor` of the source header. |
| `SplitPng.Splitter.Acquire` | vidtest/split_png.c:35-84 | A successful `fopen` or `png_create_*_struct` adds exactly that handle to the open handles and to the handles ever acquired. It is never applied to a handle already open. |
| `SplitPng.Splitter.Release` | vidtest/split_png.c:49-94 | `fclose` or `png_destroy_*_struct` applies only to an open handle and removes exactly that handle. |
| `SplitPng.Splitter.MallocPointers` | vidtest/split_png.c:159 | A pointer-array `malloc` is logged. It returns NULL exactly when this call fails; otherwise the array is fresh, has n entries and becomes live. |
| `SplitPng.Splitter.MallocRow` | vidtest/split_png.c:169 | A row `malloc` is logged. It returns NULL exactly when this call fails; otherwise the buffer is fresh, has n bytes and becomes live. |
| `SplitPng.Splitter.Free` | vidtest/split_png.c:216-220 | `free` accepts NULL or a live buffer only, so no double free is possible, and afterwards that buffer is no longer live. |
| `SplitPng.Splitter.Memcpy` | vidtest/split_png.c:225-232 | `memcpy` between two distinct live buffers copies the n source bytes starting at the offset, and leaves the rest of the destination unchanged. |
| `SplitPng.Splitter.ReadErrorHandler` | vidtest/split_png.c:87-94 | The read handler destroys both read structs and closes the input, so nothing stays open. |
| `SplitPng.Splitter.ReadImage` | vidtest/split_png.c:182-183 | After `png_read_image`, the original row buffers hold the decoded rows. |
| `SplitPng.Splitter.ReadHeader` | vidtest/split_png.c:22-156 | The header phase stops exactly where `Pipeline.HeaderStop` says and issues `ExpectedTransforms`. Every early exit leaves nothing open. A signature failure acquired only the input file. On success the input and both read structs are open. |
| `SplitPng.Splitter.FreeOrigRows` | vidtest/split_png.c:173-175 | The free loop after a failed row allocation releases rows 0 to y - 1 and the pointer array, so nothing is left allocated. |
| `SplitPng.Splitter.AllocateOriginalRows` | vidtest/split_png.c:158-180 | The allocation stops exactly where `Pipeline.OrigRowsStop` says. A failure frees everything and releases all handles. On success there is a fresh array of `height` distinct fresh rows of `rowBytes` bytes, and these are all that is allocated. |
| `SplitPng.Splitter.ReadRows` | vidtest/split_png.c:182-189 | A failing `png_read_image` or `png_read_end` stops the run with nothing open. Otherwise the rows hold the decoded image, the input is closed, and only the read structs remain open. |
| `SplitPng.Splitter.Decode` | vidtest/split_png.c:22-189 | Decoding stops exactly where `Pipeline.DecodeStop` says, with nothing open afterwards. Memory is freed on every early exit except the two read-handler exits, which leak the original rows. A format rejection happens before any `malloc`. |
| `SplitPng.Splitter.FreeSplitRows` | vidtest/split_png.c:214-221 | After a failed split row y, the free loop releases left and right rows 0 to y (row y may be NULL) and both pointer arrays, and nothing else. |
| `SplitPng.Splitter.SplitRow` | vidtest/split_png.c:209-232 | Row y succeeds iff neither half's `malloc` fails. Earlier rows are untouched, and a NULL entry marks exactly a failed call. New buffers are fresh and distinct. On success the two buffers hold the left and right parts of the source row. |
| `SplitPng.Splitter.SplitStep` | vidtest/split_png.c:207-233 | One loop iteration either extends the loop invariant to row y + 1 (rows held and holding the halves) or, on a failed allocation, frees everything the split allocated. |
| `SplitPng.Splitter.SplittingDone` | vidtest/split_png.c:207-233 | After the last row the two pointer arrays hold the left and right half images, and the split allocated exactly the two arrays and their rows. |
| `SplitPng.Splitter.SplitAllRows` | vidtest/split_png.c:207-233 | The loop stops at the first row index `FirstSplitRowFailure` names, with every split buffer freed. Otherwise the halves of every decoded row are in fresh buffers, and these are all the split allocated. |
| `SplitPng.Splitter.Split` | vidtest/split_png.c:194-233 | The split stops exactly where `Pipeline.SplitStop` says. When a pointer array fails, the array that is NULL is exactly the one whose `malloc` failed, and the other one stays allocated (a leak). A failed row frees everything the split allocated. On success the two images are held in fresh memory. |
| `SplitPng.Splitter.WriteErrorHandler` | vidtest/split_png.c:266-272 | The write handler destroys the half's two write structs and closes its file, and releases nothing else. |
| `SplitPng.Splitter.WriteHalf` | vidtest/split_png.c:238-292 | Writing one half fails exactly at `Pipeline.WriteStop`: a zero dimension is rejected at the IHDR. Every path closes what it opened, and the output file is opened unless `fopen` fails. On success the file is complete, with the header and the rows' current contents. |
| `SplitPng.Splitter.WriteOutputs` | vidtest/split_png.c:236-350 | The two writes end as `Pipeline.WritesStop` says. The left file is what its encoder produces. The right file is attempted only when the left write succeeded; otherwise its output is never opened. |
| `SplitPng.Splitter.CleanupSplits` | vidtest/split_png.c:355-362 | `cleanup_splits` frees every left and right row and both pointer arrays, and nothing else. |
| `SplitPng.Splitter.CleanupOrig` | vidtest/split_png.c:366-373 | `cleanup_orig` frees every original row and the pointer array, destroys both read structs, and returns `EXIT_SUCCESS`. |
| `SplitPng.Splitter.SplitAndWrite` | vidtest/split_png.c:194-373 | After decoding, a run ends as `Pipeline.AfterDecode` says and exits with `EXIT_SUCCESS`. Nothing stays open. Every buffer is freed, except after a split-pointer failure: then the pointer array whose `malloc` succeeded stays allocated, and the NULL one is exactly the one that failed. |
| `SplitPng.Splitter.Run` | vidtest/split_png.c:20-374 | `main` stops exactly at `Pipeline.ExpectedStop`, with exit code, transform requests and both output files as `Pipeline` predicts. It ends with nothing open. The only memory left allocated is the original rows after a read-handler exit, or, after a split-pointer failure, the pointer array whose `malloc` succeeded. In that case, a pointer is NULL exactly when its `malloc` failed. |

## Left out

- `Pipeline.Wf`: the model assumes three decoder guarantees that libpng provides after `png_read_update_info` (lines 140-145). First, the decoded image has `height` rows of `rowbytes` bytes each. Second, for an accepted 8-bit RGB or RGBA format, `channels` is the colour type's sample count. Third, `width * channels <= rowbytes`. `Run`, `Decode`, `Split`, `ExpectedLeftFile`, `ExpectedRightFile` and the lemmas about them require `Wf`.
- The libpng decoder and encoder are not modelled; they are oracles. What the decoder reports and the decoded pixels come from `Env`. The point at which an encoder fails is `Encoder.failAt`. The one libpng rule the model states itself is the IHDR check on dimensions: `png_set_IHDR` rejects a width or height that is zero or above 2^31 - 1.
- The bytes written to disk are not modelled. An output file is `Absent`, `Incomplete`, or `Complete` with its header and rows.
- Messages printed to stderr and `perror` are not modelled. `user_error_fn` and `user_warning_fn` (lines 7-18) are not modelled beyond the branch a fatal error takes.
- `setjmp`/`longjmp` are branches of the model rather than non-local jumps.
- Other reasons libpng may reject a header when writing are left to the encoder oracle. These include user width and height limits and row-size overflow.
- `png_read_image` may fail after filling only some rows. The model does not keep those partial contents, because the rows are never read on that path.
- `png_uint_32` and `size_t` arithmetic is unbounded in the model. An overflow of `sizeof(png_bytep) * new_height` or `left_width * bpp` is not modelled.
- `malloc` returning NULL is decided per call by the `fails` set. That includes the `malloc(0)` calls: the pointer arrays of a zero-height image, and every left row of a one-pixel-wide image (`left_width * bpp == 0`).
- The interlace, compression and filter methods read at lines 116-118 are never used by the code, so they are not modelled.
- `vidtest/setihdr/test_setihdr.c` and `vidtest/afltests/fuzz_png_read.c` are not part of this model.
