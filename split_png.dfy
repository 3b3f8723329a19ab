/**
 * The body of split_png.c's main, step by step: the row-pointer arrays and
 * row buffers live on the heap, every malloc may return NULL, every libpng
 * call either returns or signals a fatal error, and the goto cleanup paths
 * free what they free. The ghost state records which buffers are live,
 * which files and libpng structs are open, and every malloc call made.
 */
module SplitPng {
  import opened Png
  import opened Geometry
  import opened Pipeline

  datatype Side = Left | Right

  /** Files and libpng structs a run acquires. */
  datatype Handle =
    | InputFile
    | ReadStruct
    | ReadInfoStruct
    | OutFile(side: Side)
    | WriteStruct(side: Side)
    | WriteInfoStruct(side: Side)

  /** The buffers a sequence of row pointers refers to. */
  ghost function Objs(s: seq<array?<byte>>): set<object?>
  {
    set k | 0 <= k < |s| :: s[k]
  }

  /** No buffer appears twice among the row pointers. */
  ghost predicate Distinct(s: seq<array?<byte>>)
  {
    forall i, j :: 0 <= i < j < |s| ==> s[i] != s[j]
  }

  lemma ObjsAppend(s: seq<array?<byte>>, x: array?<byte>)
    ensures Objs(s + [x]) == Objs(s) + {x}
  {
    assert (s + [x])[|s|] == x;
    forall o | o in Objs(s) ensures o in Objs(s + [x]) {
      var k :| 0 <= k < |s| && s[k] == o;
      assert (s + [x])[k] == o;
    }
  }

  lemma ObjsFirst(s: seq<array?<byte>>)
    requires |s| > 0
    ensures Objs(s) == {s[0]} + Objs(s[1..])
  {
    forall o | o in Objs(s[1..]) ensures o in Objs(s) {
      var k :| 0 <= k < |s| - 1 && s[1..][k] == o;
      assert s[k + 1] == o;
    }
    forall o | o in Objs(s) ensures o in {s[0]} + Objs(s[1..]) {
      var k :| 0 <= k < |s| && s[k] == o;
      if k > 0 {
        assert s[1..][k - 1] == o;
      }
    }
  }

  /** A buffer of a distinct sequence is not among the ones after it. */
  lemma DistinctFirst(s: seq<array?<byte>>)
    requires Distinct(s) && |s| > 0
    ensures s[0] !in Objs(s[1..])
    ensures Distinct(s[1..])
  {
    forall k | 0 <= k < |s| - 1 ensures s[1..][k] != s[0] {
      assert s[1..][k] == s[k + 1];
    }
  }

  /** A buffer of a distinct sequence is not among the ones before it. */
  lemma DistinctLast(s: seq<array?<byte>>, y: nat)
    requires Distinct(s) && y < |s|
    ensures s[y] !in Objs(s[..y])
  {
    forall k | 0 <= k < y ensures s[..y][k] != s[y] {
      assert s[..y][k] == s[k];
    }
  }

  /** Growing a prefix by one row pointer adds that pointer's buffer. */
  lemma ObjsTake(s: seq<array?<byte>>, k: nat)
    requires k < |s|
    ensures Objs(s[..k + 1]) == Objs(s[..k]) + {s[k]}
    ensures Objs(s[..k]) <= Objs(s) && s[k] in Objs(s)
  {
    assert s[..k + 1] == s[..k] + [s[k]];
    ObjsAppend(s[..k], s[k]);
    forall o | o in Objs(s[..k]) ensures o in Objs(s) {
      var j :| 0 <= j < k && s[..k][j] == o;
      assert s[j] == o;
    }
  }

  /**
   * Two pointer sequences are held in a set of live objects: neither holds a
   * buffer twice, no buffer is in both, and all of them are live.
   */
  ghost predicate PairHeld(L: seq<array?<byte>>, R: seq<array?<byte>>, held: set<object?>)
  {
    && null !in held
    && Distinct(L) && Distinct(R) && Objs(L) !! Objs(R)
    && Objs(L) + Objs(R) <= held
  }

  /** Appending one newly live buffer to each of two held pointer sequences keeps them held. */
  lemma PairsGrow(L: seq<array?<byte>>, R: seq<array?<byte>>, l: array<byte>, r: array<byte>, held: set<object?>)
    requires PairHeld(L, R, held) && l !in held && r !in held && l != r
    ensures Objs(L + [l]) == Objs(L) + {l} && Objs(R + [r]) == Objs(R) + {r}
    ensures PairHeld(L + [l], R + [r], held + {l, r})
  {
    ObjsAppend(L, l);
    ObjsAppend(R, r);
    forall i | 0 <= i < |L| ensures (L + [l])[i] != l {
      assert L[i] in Objs(L);
    }
    forall i | 0 <= i < |R| ensures (R + [r])[i] != r {
      assert R[i] in Objs(R);
    }
  }

  /** Distinct non-null row pointers refer to exactly as many buffers as there are rows. */
  lemma {:induction false} DistinctCount(s: seq<array?<byte>>)
    requires Distinct(s)
    ensures |Objs(s)| == |s|
  {
    if |s| > 0 {
      ObjsFirst(s);
      DistinctFirst(s);
      DistinctCount(s[1..]);
    } else {
      assert Objs(s) == {};
    }
  }

  /** The row buffers of a pointer array hold the given rows. */
  ghost predicate Holds(a: array<array?<byte>>, rows: seq<seq<byte>>)
    reads a, a[..]
  {
    |rows| == a.Length
    && forall k :: 0 <= k < a.Length ==> a[k] != null && a[k][..] == rows[k]
  }

  /**
   * Step 10 of main: the png_set_* requests issued for the source header,
   * one after another.
   */
  method RequestTransforms(src: SourceInfo) returns (transforms: seq<Transform>)
    ensures transforms == TransformsFor(src)
  {
    transforms := [];
    if src.colorType == Palette {
      transforms := transforms + [ExpandPalette];
    }
    if src.hasTrns {
      transforms := transforms + [TrnsToAlpha];
    }
    if src.bitDepth == 16 {
      transforms := transforms + [Strip16];
    }
    if src.colorType == Gray || src.colorType == GrayAlpha {
      transforms := transforms + [GrayToRgb];
    }
  }

  class Splitter {
    var origRows: array?<array?<byte>>
    var leftRows: array?<array?<byte>>
    var rightRows: array?<array?<byte>>
    /** The malloc calls that return NULL in this run. */
    const fails: set<Alloc>
    /** Heap buffers allocated and not yet freed. */
    ghost var live: set<object?>
    /** Files and libpng structs currently open. */
    ghost var handles: set<Handle>
    /** Every handle acquired so far. */
    ghost var acquired: set<Handle>
    /** Every malloc call made so far, in order. */
    ghost var allocLog: seq<Alloc>

    /** a is a live pointer array whose rows are distinct live buffers. */
    ghost predicate Held(a: array?<array?<byte>>)
      reads this`live, a
    {
      && a != null && a in live && null !in live
      && Distinct(a[..])
      && Objs(a[..]) <= live
    }

    /** a is a live pointer array of n distinct live rows of len bytes each. */
    ghost predicate Owns(a: array?<array?<byte>>, n: nat, len: nat)
      reads this`live, a
    {
      && Held(a) && a.Length == n
      && (forall k :: 0 <= k < n ==> a[k] != null && a[k].Length == len)
    }

    /**
     * The first y rows of left_rows and right_rows are distinct live buffers,
     * no buffer being in both halves.
     */
    ghost predicate SplitRowsHeld(y: nat)
      reads this`live, this`leftRows, this`rightRows, leftRows, rightRows
    {
      && leftRows != null && rightRows != null && leftRows != rightRows
      && y <= leftRows.Length && y <= rightRows.Length
      && leftRows in live && rightRows in live
      && PairHeld(leftRows[..y], rightRows[..y], live)
    }

    /** Everything the split allocated. */
    ghost function SplitBuffers(): set<object?>
      reads this`leftRows, this`rightRows, leftRows, rightRows
      requires leftRows != null && rightRows != null
    {
      {leftRows, rightRows} + Objs(leftRows[..]) + Objs(rightRows[..])
    }

    constructor (fails: set<Alloc>)
      ensures this.fails == fails
      ensures origRows == null && leftRows == null && rightRows == null
      ensures live == {} && handles == {} && acquired == {} && allocLog == []
    {
      this.fails := fails;
      origRows, leftRows, rightRows := null, null, null;
      live, handles, acquired, allocLog := {}, {}, {}, [];
    }

    /** fopen or png_create_*_struct succeeding. */
    method Acquire(h: Handle)
      requires h !in handles
      modifies this`handles, this`acquired
      ensures handles == old(handles) + {h} && acquired == old(acquired) + {h}
    {
      handles := handles + {h};
      acquired := acquired + {h};
    }

    /** fclose or png_destroy_*_struct: never twice on one handle. */
    method Release(h: Handle)
      requires h in handles
      modifies this`handles
      ensures handles == old(handles) - {h}
    {
      handles := handles - {h};
    }

    /** malloc of an array of row pointers; NULL exactly when this call is one that fails. */
    method MallocPointers(kind: Alloc, n: nat) returns (p: array?<array?<byte>>)
      modifies this`live, this`allocLog
      ensures allocLog == old(allocLog) + [kind]
      ensures p == null <==> kind in fails
      ensures p != null ==> fresh(p) && p.Length == n
      ensures live == old(live) + ({p} - {null})
    {
      allocLog := allocLog + [kind];
      if kind in fails {
        p := null;
      } else {
        p := new array?<byte>[n];
        live := live + {p};
      }
    }

    /** malloc of one row buffer; NULL exactly when this call is one that fails. */
    method MallocRow(kind: Alloc, n: nat) returns (p: array?<byte>)
      modifies this`live, this`allocLog
      ensures allocLog == old(allocLog) + [kind]
      ensures p == null <==> kind in fails
      ensures p != null ==> fresh(p) && p.Length == n
      ensures live == old(live) + ({p} - {null})
    {
      allocLog := allocLog + [kind];
      if kind in fails {
        p := null;
      } else {
        p := new byte[n];
        live := live + {p};
      }
    }

    /** free: a no-op on NULL, otherwise only of a live buffer (no double free). */
    method Free(p: object?)
      requires p == null || p in live
      modifies this`live
      ensures live == old(live) - {p}
    {
      live := live - {p};
    }

    /** memcpy between two live, distinct buffers. */
    method Memcpy(dst: array<byte>, src: array<byte>, offset: nat, n: nat)
      requires dst in live && src in live && dst != src
      requires n <= dst.Length && offset + n <= src.Length
      modifies dst
      ensures dst[..n] == src[offset..offset + n]
      ensures dst[n..] == old(dst[n..])
    {
      forall i | 0 <= i < n {
        dst[i] := src[offset + i];
      }
    }

    /** The handler armed by setjmp for reading: destroy both read structs, close the input. */
    method ReadErrorHandler()
      requires handles == {InputFile, ReadStruct, ReadInfoStruct}
      modifies this`handles
      ensures handles == {}
    {
      Release(ReadInfoStruct);
      Release(ReadStruct);
      Release(InputFile);
    }

    /** png_read_image: fills the original rows with the decoded image. */
    method ReadImage(pixels: seq<seq<byte>>)
      requires origRows != null && origRows.Length == |pixels| && origRows in live
      requires forall k :: 0 <= k < |pixels| ==> origRows[k] != null && origRows[k].Length == |pixels[k]|
      requires Distinct(origRows[..]) && Objs(origRows[..]) <= live
      modifies origRows[..]
      ensures Holds(origRows, pixels)
    {
      var rows := origRows;
      for y := 0 to |pixels|
        invariant forall k :: 0 <= k < y ==> rows[k][..] == pixels[k]
      {
        var row := rows[y];
        forall i | 0 <= i < row.Length {
          row[i] := pixels[y][i];
        }
        assert row[..] == pixels[y];
        forall k | 0 <= k < y ensures rows[k][..] == pixels[k] {
          assert rows[..][k] != rows[..][y];
        }
      }
    }

    /**
     * Steps 1 to 11 of main: open the input, check the signature, create the
     * read structs, read the header, request the transforms and check the
     * final format.
     */
    method ReadHeader(e: Env) returns (stop: Option<Stop>, transforms: seq<Transform>)
      requires handles == {} && acquired == {} && live == {}
      modifies this`handles, this`acquired
      ensures stop == HeaderStop(e)
      ensures transforms == ExpectedTransforms(e)
      ensures stop.Some? ==> handles == {}
      ensures stop.Some? && stop.value in {InputTooShort, BadSignature} ==> acquired == {InputFile}
      ensures stop.None? ==> handles == {InputFile, ReadStruct, ReadInfoStruct}
      ensures acquired <= {InputFile, ReadStruct, ReadInfoStruct}
    {
      transforms := [];
      // the usage check on argc
      if e.argCount != ArgCount {
        return Some(BadUsage), transforms;
      }
      // 1. fopen
      if !e.inputOpens {
        return Some(CannotOpenInput), transforms;
      }
      Acquire(InputFile);
      // 2-3. fread of eight bytes and png_sig_cmp
      var sig := CheckSignature(e.input);
      if sig != SignatureOk {
        Release(InputFile);
        stop := if sig == SignatureTooShort then Some(InputTooShort) else Some(BadSignature);
        return;
      }
      // 4. png_create_read_struct and png_create_info_struct
      if !e.readStructOk {
        Release(InputFile);
        return Some(NoReadStruct), transforms;
      }
      Acquire(ReadStruct);
      if !e.infoStructOk {
        Release(ReadStruct);
        Release(InputFile);
        return Some(NoInfoStruct), transforms;
      }
      Acquire(ReadInfoStruct);
      // 8. png_read_info
      if !e.readInfoOk {
        ReadErrorHandler();
        return Some(ReadFailed(ReadInfoStep)), transforms;
      }
      // 10. transform requests
      transforms := RequestTransforms(e.source);
      // png_read_update_info
      if !e.updateOk {
        ReadErrorHandler();
        return Some(ReadFailed(UpdateInfoStep)), transforms;
      }
      // 11. final format check
      var f := e.final;
      if f.bitDepth != 8 || (f.colorType != Rgb && f.colorType != Rgba) {
        Release(ReadInfoStruct);
        Release(ReadStruct);
        Release(InputFile);
        return Some(UnsupportedFormat(f.bitDepth, f.colorType)), transforms;
      }
      stop := None;
    }

    /** The free loop taken when original row y cannot be allocated: rows 0 to y - 1, then orig_rows. */
    method FreeOrigRows(y: nat)
      requires origRows != null && y <= origRows.Length
      requires Distinct(origRows[..y]) && live == {origRows} + Objs(origRows[..y])
      modifies this`live
      ensures live == {}
    {
      var rows := origRows;
      assert rows[0..y] == rows[..y];
      for k := 0 to y
        invariant Distinct(rows[k..y])
        invariant live == {rows} + Objs(rows[k..y])
      {
        ObjsFirst(rows[k..y]);
        assert rows[k..y][0] == rows[k];
        assert rows[k..y][1..] == rows[k + 1..y];
        DistinctFirst(rows[k..y]);
        Free(rows[k]);
      }
      assert rows[y..y] == [];
      Free(rows);
    }

    /**
     * Step 12 of main: the orig_rows array and one buffer of rowBytes bytes
     * per row. When row y cannot be allocated, rows 0 to y - 1 and the array
     * are freed and the read structs and the input file are released.
     */
    method AllocateOriginalRows(height: nat, rowBytes: nat) returns (stop: Option<Stop>)
      requires live == {} && handles == {InputFile, ReadStruct, ReadInfoStruct}
      modifies this`origRows, this`live, this`allocLog, this`handles
      ensures stop == OrigRowsStop(fails, height)
      ensures stop.Some? ==> live == {} && handles == {}
      ensures stop.None? ==>
                && Owns(origRows, height, rowBytes) && fresh(origRows)
                && (forall k :: 0 <= k < height ==> fresh(origRows[k]))
                && live == {origRows} + Objs(origRows[..])
                && handles == old(handles)
    {
      var rows := MallocPointers(OrigPointers, height);
      origRows := rows;
      if rows == null {
        Release(ReadInfoStruct);
        Release(ReadStruct);
        Release(InputFile);
        return Some(NoRowPointers);
      }
      for y := 0 to height
        invariant origRows == rows && fresh(rows)
        invariant handles == {InputFile, ReadStruct, ReadInfoStruct}
        invariant forall k :: 0 <= k < y ==> OrigRow(k) !in fails
        invariant forall k :: 0 <= k < y ==> rows[k] != null && rows[k].Length == rowBytes && fresh(rows[k])
        invariant Distinct(rows[..y])
        invariant live == {rows} + Objs(rows[..y])
      {
        var row := MallocRow(OrigRow(y), rowBytes);
        if row == null {
          assert FirstOrigRowFailure(fails, 0, height) == y;
          FreeOrigRows(y);
          Release(ReadInfoStruct);
          Release(ReadStruct);
          Release(InputFile);
          return Some(NoOrigRow(y));
        }
        ghost var done := rows[..y];
        rows[y] := row;
        assert rows[..y + 1] == done + [row];
        ObjsAppend(done, row);
      }
      assert rows[..height] == rows[..];
      assert FirstOrigRowFailure(fails, 0, height) == height;
      stop := None;
    }

    /**
     * The state after png_read_end: the original rows hold the decoded
     * image and are all that is allocated, and only the read structs are open.
     */
    ghost predicate Decoded(e: Env)
      reads this, origRows
      reads if origRows != null then origRows[..] else []
    {
      && Owns(origRows, e.final.height, e.final.rowBytes)
      && live == {origRows} + Objs(origRows[..])
      && Holds(origRows, e.pixels)
      && handles == {ReadStruct, ReadInfoStruct}
      && OutFile(Right) !in acquired
      && Wf(e) && e.fails == fails
    }

    /**
     * Steps 13 and 14 of main: png_read_image fills the rows and png_read_end
     * finishes the datastream; a fatal error in either reaches the read
     * handler, which does not free the rows. On success the input is closed.
     */
    method ReadRows(e: Env) returns (stop: Option<Stop>)
      requires Wf(e) && e.fails == fails
      requires Owns(origRows, e.final.height, e.final.rowBytes) && live == {origRows} + Objs(origRows[..])
      requires handles == {InputFile, ReadStruct, ReadInfoStruct} && OutFile(Right) !in acquired
      modifies this`handles, origRows[..]
      ensures stop == if !e.readImageOk then Some(ReadFailed(ReadImageStep))
                      else if !e.readEndOk then Some(ReadFailed(ReadEndStep))
                      else None
      ensures stop.Some? ==> handles == {}
      ensures stop.None? ==> Decoded(e)
    {
      // 13. png_read_image
      if !e.readImageOk {
        ReadErrorHandler();
        return Some(ReadFailed(ReadImageStep));
      }
      ReadImage(e.pixels);
      // 14. png_read_end
      if !e.readEndOk {
        ReadErrorHandler();
        return Some(ReadFailed(ReadEndStep));
      }
      // fclose of the input
      Release(InputFile);
      stop := None;
    }

    /**
     * Steps 1 to 14 of main, ending with png_read_image and png_read_end,
     * whose fatal errors reach the read handler without freeing the rows.
     */
    method Decode(e: Env) returns (stop: Option<Stop>, transforms: seq<Transform>)
      requires Wf(e) && e.fails == fails
      requires live == {} && handles == {} && acquired == {} && allocLog == []
      modifies this
      ensures stop == DecodeStop(e)
      ensures transforms == ExpectedTransforms(e)
      ensures stop.Some? ==> handles == {}
      ensures acquired <= {InputFile, ReadStruct, ReadInfoStruct}
      ensures stop.Some? && stop.value in {InputTooShort, BadSignature} ==> acquired == {InputFile}
      ensures stop.Some? && stop.value.UnsupportedFormat? ==> allocLog == []
      ensures stop.Some? && !LeaksOriginalRows(stop.value) ==> live == {}
      ensures stop.Some? && LeaksOriginalRows(stop.value) ==>
                Owns(origRows, e.final.height, e.final.rowBytes) && live == {origRows} + Objs(origRows[..])
      ensures stop.None? ==> Decoded(e) && HeaderStop(e).None?
    {
      stop, transforms := ReadHeader(e);
      if stop.Some? {
        return;
      }
      stop := AllocateOriginalRows(e.final.height, e.final.rowBytes);
      if stop.Some? {
        return;
      }
      stop := ReadRows(e);
    }

    /**
     * The free loop taken when split row y cannot be allocated: left and
     * right rows 0 to y (row y may be NULL) and then both pointer arrays.
     */
    method FreeSplitRows(y: nat)
      requires SplitRowsHeld(y) && y < leftRows.Length && y < rightRows.Length
      requires leftRows[y] == null || (leftRows[y] in live && leftRows[y] !in Objs(leftRows[..y]) + Objs(rightRows[..y]))
      requires rightRows[y] == null || (rightRows[y] in live && rightRows[y] !in Objs(leftRows[..y]) + Objs(rightRows[..y]))
      requires rightRows[y] == null || rightRows[y] != leftRows[y]
      modifies this`live
      ensures live == old(live) - ({leftRows, rightRows} + Objs(leftRows[..y + 1]) + Objs(rightRows[..y + 1]))
    {
      var left, right := leftRows, rightRows;
      for k := 0 to y + 1
        invariant live == old(live) - (Objs(left[..k]) + Objs(right[..k]))
      {
        ObjsTake(left[..], k);
        ObjsTake(right[..], k);
        if k < y {
          assert left[..y][..k] == left[..k] && right[..y][..k] == right[..k];
          DistinctLast(left[..y], k);
          DistinctLast(right[..y], k);
          ObjsTake(left[..y], k);
          ObjsTake(right[..y], k);
        }
        Free(left[k]);
        Free(right[k]);
      }
      Free(left);
      Free(right);
    }

    /**
     * One iteration of the split loop: allocate left and right row y, and
     * when both exist copy the two halves of original row y into them.
     */
    method SplitRow(f: FinalInfo, src: array<byte>, y: nat) returns (ok: bool)
      requires src in live && f.width * f.channels <= src.Length
      requires leftRows != null && rightRows != null && leftRows != rightRows
      requires y < leftRows.Length && y < rightRows.Length
      modifies leftRows, rightRows, this`live, this`allocLog
      ensures leftRows[..y] == old(leftRows[..y]) && rightRows[..y] == old(rightRows[..y])
      ensures leftRows[y + 1..] == old(leftRows[y + 1..]) && rightRows[y + 1..] == old(rightRows[y + 1..])
      ensures ok <==> LeftRow(y) !in fails && RightRow(y) !in fails
      ensures leftRows[y] == null <==> LeftRow(y) in fails
      ensures rightRows[y] == null <==> RightRow(y) in fails
      ensures leftRows[y] != null ==> fresh(leftRows[y]) && leftRows[y] != rightRows[y]
      ensures rightRows[y] != null ==> fresh(rightRows[y])
      ensures old(live) !! ({leftRows[y], rightRows[y]} - {null})
      ensures live == old(live) + ({leftRows[y], rightRows[y]} - {null})
      ensures ok ==>
                && leftRows[y][..] == LeftPart(src[..], f.width, f.channels)
                && rightRows[y][..] == RightPart(src[..], f.width, f.channels)
    {
      var lw := LeftWidth(f.width);
      var rw := RightWidth(f.width);
      var bpp := f.channels;
      assert lw * bpp == SplitOffset(f.width, bpp);
      var l := MallocRow(LeftRow(y), lw * bpp);
      leftRows[y] := l;
      var r := MallocRow(RightRow(y), rw * bpp);
      rightRows[y] := r;
      if l == null || r == null {
        return false;
      }
      Memcpy(l, src, 0, lw * bpp);
      Memcpy(r, src, lw * bpp, rw * bpp);
      ok := true;
    }

    /**
     * The split loop's invariant after y rows: the first y left and right
     * buffers are held, hold the halves of the first y decoded rows, and are
     * all that was allocated since start besides the two pointer arrays.
     */
    ghost predicate Splitting(f: FinalInfo, pixels: seq<seq<byte>>, start: set<object?>, y: nat)
      reads this, leftRows, rightRows
      reads if leftRows != null then leftRows[..] else []
      reads if rightRows != null then rightRows[..] else []
    {
      && SplitRowsHeld(y)
      && y <= |pixels| && RowsCover(pixels, f)
      && (forall k :: 0 <= k < y ==> LeftRow(k) !in fails && RightRow(k) !in fails)
      && (forall k :: 0 <= k < y ==>
            && leftRows[k] != null && leftRows[k][..] == LeftPart(pixels[k], f.width, f.channels)
            && rightRows[k] != null && rightRows[k][..] == RightPart(pixels[k], f.width, f.channels))
      && start !! ({leftRows, rightRows} + Objs(leftRows[..y]) + Objs(rightRows[..y]))
      && live == start + ({leftRows, rightRows} + Objs(leftRows[..y]) + Objs(rightRows[..y]))
    }

    /**
     * One iteration of the split loop. When row y cannot be allocated,
     * every split buffer allocated so far is freed with both pointer arrays.
     */
    method SplitStep(f: FinalInfo, pixels: seq<seq<byte>>, ghost start: set<object?>, y: nat, src: array<byte>) returns (ok: bool)
      requires Splitting(f, pixels, start, y) && y < |pixels| && y < leftRows.Length && y < rightRows.Length
      requires src in start && src[..] == pixels[y]
      modifies leftRows, rightRows, this`live, this`allocLog
      ensures ok <==> LeftRow(y) !in fails && RightRow(y) !in fails
      ensures ok ==> Splitting(f, pixels, start, y + 1)
      ensures !ok ==> live == start
    {
      var left, right := leftRows, rightRows;
      ghost var L, R, before := left[..y], right[..y], live;
      assert forall k :: 0 <= k < y ==>
               && L[k] != null && L[k][..] == LeftPart(pixels[k], f.width, f.channels)
               && R[k] != null && R[k][..] == RightPart(pixels[k], f.width, f.channels);
      ok := SplitRow(f, src, y);
      assert left[..y + 1] == L + [left[y]] && right[..y + 1] == R + [right[y]];
      if !ok {
        FreeSplitRows(y);
        ObjsAppend(L, left[y]);
        ObjsAppend(R, right[y]);
        return;
      }
      PairsGrow(L, R, left[y], right[y], before);
      forall k | 0 <= k < y + 1
        ensures && left[k] != null && left[k][..] == LeftPart(pixels[k], f.width, f.channels)
                && right[k] != null && right[k][..] == RightPart(pixels[k], f.width, f.channels)
      {
        if k < y {
          assert left[k] == L[k] && right[k] == R[k];
        }
      }
    }

    /** After the last row the loop invariant gives the split's result. */
    lemma SplittingDone(f: FinalInfo, pixels: seq<seq<byte>>, start: set<object?>)
      requires Splitting(f, pixels, start, f.height) && |pixels| == f.height
      requires leftRows.Length == rightRows.Length == f.height
      ensures SplitRowsHeld(f.height)
      ensures Holds(leftRows, LeftImage(pixels, f)) && Holds(rightRows, RightImage(pixels, f))
      ensures start !! SplitBuffers() && live == start + SplitBuffers()
    {
      assert leftRows[..f.height] == leftRows[..] && rightRows[..f.height] == rightRows[..];
    }

    /**
     * Step 16 of main after both pointer arrays exist: the loop over the
     * rows, which on the first failed row allocation frees every row so far
     * and both pointer arrays.
     */
    method SplitAllRows(f: FinalInfo, pixels: seq<seq<byte>>, ghost start: set<object?>) returns (stop: Option<Stop>)
      requires |pixels| == f.height && RowsCover(pixels, f)
      requires origRows != null && origRows in start && Holds(origRows, pixels) && Objs(origRows[..]) <= start
      requires leftRows != null && rightRows != null && leftRows != rightRows
      requires leftRows.Length == rightRows.Length == f.height
      requires start !! {leftRows, rightRows} && null !in start
      requires live == start + {leftRows, rightRows}
      modifies leftRows, rightRows, this`live, this`allocLog
      ensures stop.Some? ==> stop == Some(NoSplitRow(FirstSplitRowFailure(fails, 0, f.height))) && live == start
      ensures stop.Some? ==> FirstSplitRowFailure(fails, 0, f.height) < f.height
      ensures stop.None? ==>
                && FirstSplitRowFailure(fails, 0, f.height) == f.height
                && SplitRowsHeld(f.height)
                && Holds(leftRows, LeftImage(pixels, f))
                && Holds(rightRows, RightImage(pixels, f))
                && start !! SplitBuffers()
                && live == start + SplitBuffers()
    {
      assert leftRows[..0] == [] && rightRows[..0] == [];
      for y := 0 to f.height
        invariant Splitting(f, pixels, start, y)
        invariant origRows != leftRows && origRows != rightRows
        invariant Holds(origRows, pixels) && Objs(origRows[..]) <= start
      {
        var src := origRows[y];
        assert origRows[..][y] == src;
        var ok := SplitStep(f, pixels, start, y, src);
        if !ok {
          assert FirstSplitRowFailure(fails, 0, f.height) == y;
          return Some(NoSplitRow(y));
        }
      }
      assert FirstSplitRowFailure(fails, 0, f.height) == f.height;
      SplittingDone(f, pixels, start);
      stop := None;
    }

    /**
     * Steps 15 and 16 of main: compute the half widths, allocate left_rows,
     * right_rows and one buffer per half row, and copy each half of every
     * original row into its buffer.
     */
    method Split(e: Env) returns (stop: Option<Stop>)
      requires Wf(e) && e.fails == fails && HeaderStop(e).None?
      requires Owns(origRows, e.final.height, e.final.rowBytes) && Holds(origRows, e.pixels)
      modifies this`leftRows, this`rightRows, this`live, this`allocLog
      ensures stop == SplitStop(e)
      ensures leftRows != null ==> fresh(leftRows)
      ensures rightRows != null ==> fresh(rightRows)
      ensures stop == Some(NoSplitPointers) ==> live == old(live) + ({leftRows, rightRows} - {null})
      ensures stop == Some(NoSplitPointers) ==>
                (leftRows == null <==> LeftPointers in fails) && (rightRows == null <==> RightPointers in fails)
      ensures stop.Some? && stop.value.NoSplitRow? ==> live == old(live)
      ensures stop.None? ==>
                && SplitRowsHeld(e.final.height)
                && leftRows.Length == rightRows.Length == e.final.height
                && Holds(leftRows, LeftImage(e.pixels, e.final))
                && Holds(rightRows, RightImage(e.pixels, e.final))
                && old(live) !! SplitBuffers()
                && live == old(live) + SplitBuffers()
    {
      var left := MallocPointers(LeftPointers, e.final.height);
      var right := MallocPointers(RightPointers, e.final.height);
      leftRows, rightRows := left, right;
      if left == null || right == null {
        return Some(NoSplitPointers);
      }
      stop := SplitAllRows(e.final, e.pixels, old(live));
    }

    /** The cleanup_splits label: free every left and right row, then both pointer arrays. */
    method CleanupSplits()
      requires leftRows != null && rightRows != null
      requires SplitRowsHeld(leftRows.Length) && leftRows.Length == rightRows.Length
      modifies this`live
      ensures live == old(live) - SplitBuffers()
    {
      var left, right := leftRows, rightRows;
      var n := left.Length;
      assert left[..n] == left[..] && right[..n] == right[..];
      for y := 0 to n
        invariant live == old(live) - (Objs(left[..y]) + Objs(right[..y]))
      {
        ObjsTake(left[..], y);
        ObjsTake(right[..], y);
        DistinctLast(left[..], y);
        DistinctLast(right[..], y);
        Free(left[y]);
        Free(right[y]);
      }
      Free(left);
      Free(right);
    }

    /**
     * The cleanup_orig label: free every original row and the pointer array,
     * destroy the read structs, and return EXIT_SUCCESS.
     */
    method CleanupOrig() returns (exit: int)
      requires Held(origRows)
      requires ReadStruct in handles && ReadInfoStruct in handles
      modifies this`live, this`handles
      ensures live == old(live) - ({origRows} + Objs(origRows[..]))
      ensures handles == old(handles) - {ReadStruct, ReadInfoStruct}
      ensures exit == ExitSuccess
    {
      var rows := origRows;
      for y := 0 to rows.Length
        modifies this`live
        invariant live == old(live) - Objs(rows[..y])
      {
        ObjsTake(rows[..], y);
        assert rows[..][..y] == rows[..y];
        DistinctLast(rows[..], y);
        Free(rows[y]);
      }
      assert rows[..rows.Length] == rows[..];
      Free(rows);
      Release(ReadInfoStruct);
      Release(ReadStruct);
      exit := ExitSuccess;
    }

    /** The setjmp handler of a write stage: destroy its structs, close its file. */
    method WriteErrorHandler(side: Side)
      requires OutFile(side) in handles && WriteStruct(side) in handles && WriteInfoStruct(side) in handles
      modifies this`handles
      ensures handles == old(handles) - {OutFile(side), WriteStruct(side), WriteInfoStruct(side)}
    {
      Release(WriteInfoStruct(side));
      Release(WriteStruct(side));
      Release(OutFile(side));
    }

    /**
     * Steps 17 and 18 of main, for one half: open the output, create the
     * write structs, set the IHDR, and write the rows top to bottom. Every
     * failure closes what this stage opened; nothing else changes.
     */
    method WriteHalf(side: Side, rows: array<array?<byte>>, h: Ihdr, enc: Encoder) returns (failed: Option<WriteStep>, file: FileState)
      requires Held(rows) && rows.Length == h.height
      requires OutFile(side) !in handles && WriteStruct(side) !in handles && WriteInfoStruct(side) !in handles
      modifies this`handles, this`acquired
      ensures handles == old(handles)
      ensures failed == WriteStop(enc, h)
      ensures OutFile(side) in acquired <==> OutFile(side) in old(acquired) || failed != Some(OpenOutput)
      ensures acquired <= old(acquired) + {OutFile(side), WriteStruct(side), WriteInfoStruct(side)}
      ensures failed.Some? ==> file == (if failed.value == OpenOutput then Absent else Incomplete)
      ensures failed.None? ==>
                file.Complete? && file.header == h && |file.rows| == rows.Length
                && forall k :: 0 <= k < rows.Length ==> rows[k] != null && file.rows[k] == rows[k][..]
    {
      EncoderCases(enc);
      if enc.failAt == Some(OpenOutput) {
        return Some(OpenOutput), Absent;
      }
      Acquire(OutFile(side));
      if enc.failAt == Some(CreateWriteStruct) {
        Release(OutFile(side));
        return enc.failAt, Incomplete;
      }
      Acquire(WriteStruct(side));
      if enc.failAt == Some(CreateInfoStruct) {
        Release(WriteStruct(side));
        Release(OutFile(side));
        return enc.failAt, Incomplete;
      }
      Acquire(WriteInfoStruct(side));
      // png_set_IHDR: libpng rejects a zero width or height
      if !DimensionsValid(h) || enc.failAt == Some(SetHeader) {
        WriteErrorHandler(side);
        return Some(SetHeader), Incomplete;
      }
      // png_set_rows and png_write_info
      if enc.failAt == Some(WriteInfo) {
        WriteErrorHandler(side);
        return enc.failAt, Incomplete;
      }
      // png_write_image
      forall k | 0 <= k < rows.Length ensures rows[k] != null {
        assert rows[..][k] in Objs(rows[..]);
      }
      var image := seq(rows.Length, k requires 0 <= k < rows.Length && rows[k] != null reads rows, rows[..] => rows[k][..]);
      if enc.failAt == Some(WriteImage) {
        WriteErrorHandler(side);
        return enc.failAt, Incomplete;
      }
      // png_write_end
      if enc.failAt == Some(WriteEnd) {
        WriteErrorHandler(side);
        return enc.failAt, Incomplete;
      }
      // png_destroy_write_struct and fclose after png_write_end
      Release(WriteInfoStruct(side));
      Release(WriteStruct(side));
      Release(OutFile(side));
      failed, file := None, Complete(h, image);
    }

    /**
     * Steps 17 and 18 of main: write the left half and, only when that
     * succeeded, the right half.
     */
    method WriteOutputs(e: Env) returns (stop: Stop, left: FileState, right: FileState)
      requires Wf(e) && HeaderStop(e).None?
      requires SplitRowsHeld(e.final.height) && leftRows.Length == rightRows.Length == e.final.height
      requires Holds(leftRows, LeftImage(e.pixels, e.final)) && Holds(rightRows, RightImage(e.pixels, e.final))
      requires handles == {ReadStruct, ReadInfoStruct} && OutFile(Right) !in acquired
      modifies this`handles, this`acquired
      ensures stop == WritesStop(e) && handles == old(handles)
      ensures left == FileAfter(e.left, LeftHeader(e.final), LeftImage(e.pixels, e.final))
      ensures right ==
                if stop.LeftFailed? then Absent
                else FileAfter(e.right, RightHeader(e.final), RightImage(e.pixels, e.final))
      ensures stop.LeftFailed? ==> OutFile(Right) !in acquired
    {
      var f := e.final;
      assert leftRows[..f.height] == leftRows[..] && rightRows[..f.height] == rightRows[..];
      var failed;
      failed, left := WriteHalf(Left, leftRows, LeftHeader(f), e.left);
      if failed.Some? {
        return LeftFailed(failed.value), left, Absent;
      }
      assert left.rows == LeftImage(e.pixels, f);
      failed, right := WriteHalf(Right, rightRows, RightHeader(f), e.right);
      if failed.Some? {
        return RightFailed(failed.value), left, right;
      }
      assert right.rows == RightImage(e.pixels, f);
      stop := Completed;
    }

    /**
     * Steps 15 to 19 of main once the image is decoded: split, write, and
     * leave through cleanup_splits or cleanup_orig, which return EXIT_SUCCESS.
     */
    method SplitAndWrite(e: Env) returns (exit: int, stop: Stop, left: FileState, right: FileState)
      requires Wf(e) && e.fails == fails && Decoded(e) && HeaderStop(e).None?
      modifies this`leftRows, this`rightRows, this`live, this`allocLog, this`handles, this`acquired
      ensures stop == AfterDecode(e) && exit == ExitSuccess
      ensures left == (if SplitStop(e).Some? then Absent else FileAfter(e.left, LeftHeader(e.final), LeftImage(e.pixels, e.final)))
      ensures right == (if SplitStop(e).Some? || WriteStop(e.left, LeftHeader(e.final)).Some? then Absent
                        else FileAfter(e.right, RightHeader(e.final), RightImage(e.pixels, e.final)))
      ensures handles == {}
      ensures stop.LeftFailed? ==> OutFile(Right) !in acquired
      ensures stop == NoSplitPointers ==> live == {leftRows, rightRows} - {null}
      ensures stop == NoSplitPointers ==>
                (leftRows == null <==> LeftPointers in fails) && (rightRows == null <==> RightPointers in fails)
      ensures stop != NoSplitPointers ==> live == {}
    {
      var split := Split(e);
      if split.Some? {
        stop, left, right := split.value, Absent, Absent;
        exit := CleanupOrig();
        return;
      }
      stop, left, right := WriteOutputs(e);
      CleanupSplits();
      exit := CleanupOrig();
    }

    /**
     * main: decode, then split and write. Returns the exit status, where the
     * run stopped, the transform requests issued and both output files.
     */
    method Run(e: Env) returns (exit: int, stop: Stop, transforms: seq<Transform>, left: FileState, right: FileState)
      requires Wf(e) && e.fails == fails
      requires live == {} && handles == {} && acquired == {} && allocLog == []
      modifies this
      ensures stop == ExpectedStop(e) && exit == ExitCode(stop)
      ensures transforms == ExpectedTransforms(e)
      ensures left == ExpectedLeftFile(e) && right == ExpectedRightFile(e)
      ensures handles == {}
      ensures stop.LeftFailed? ==> OutFile(Right) !in acquired
      ensures stop in {InputTooShort, BadSignature} ==> acquired == {InputFile}
      ensures stop.UnsupportedFormat? ==> allocLog == []
      ensures LeaksOriginalRows(stop) ==>
                && origRows != null && live == {origRows} + Objs(origRows[..])
                && |Objs(origRows[..])| == e.final.height
      ensures stop == NoSplitPointers ==> live == {leftRows, rightRows} - {null}
      ensures stop == NoSplitPointers ==>
                (leftRows == null <==> LeftPointers in fails) && (rightRows == null <==> RightPointers in fails)
      ensures !LeaksOriginalRows(stop) && stop != NoSplitPointers ==> live == {}
    {
      var decoded;
      decoded, transforms := Decode(e);
      if decoded.Some? {
        assert ExpectedStop(e) == decoded.value && ExitCode(decoded.value) == ExitFailure;
        assert ExpectedLeftFile(e) == Absent && ExpectedRightFile(e) == Absent;
        stop, exit, left, right := decoded.value, ExitFailure, Absent, Absent;
        if LeaksOriginalRows(stop) {
          DistinctCount(origRows[..]);
        }
        return;
      }
      assert DecodeStop(e).None? && ExpectedStop(e) == AfterDecode(e);
      exit, stop, left, right := SplitAndWrite(e);
    }
  }
}
