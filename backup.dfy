/** The backup mode of bootmgr.c's `main` (`-b <image> <destination>`):
    verify the image, skip the copy when the destination already verifies
    with the same fingerprint, and otherwise stream exactly the computed
    image length from the image to the destination in chunks of at most
    2048 bytes, aborting on a short write.

    File I/O is modelled by its effect: the image file is the sequence of
    bytes `fread` can still deliver from offset 0 (after it, every read
    returns 0, as at end of file); the destination accepts at most `room`
    bytes before `fwrite` comes back short. */
module Backup {
  import opened Words
  import opened CStrings
  import opened BootImage

  const BUFFER_SIZE: nat := 2048

  type byte = x: int | 0 <= x < 256

  /** How the copy loop ends. */
  datatype CopyOutcome =
    | Copied   // `dataleft` reached 0
    | Aborted  // a write count differed from its read count: `abort()`
    | Stalled  // a read returned 0 while bytes were still owed

  /** The copy loop of bootmgr.c:115-131. `written` is the bytes `fwrite`
      accepted (its return counts), in order. Each pass asks `fread` for
      `Min(BUFFER_SIZE, dataleft)` bytes into the 2048-byte `buffer`; the
      array's bounds check on every store is what guarantees no request
      exceeds it. A read of 0 bytes with `dataleft > 0` is also written as
      0 bytes and leaves `dataleft` as it was; from then on every pass reads
      0 again, so the C loop never ends: the model stops there and reports
      `Stalled`. */
  method CopyImage(filesize: u32, src: seq<byte>, room: nat)
    returns (outcome: CopyOutcome, written: seq<byte>)
    ensures written == src[..Min(Min(filesize, |src|), room)]
    ensures outcome == Copied <==> filesize <= |src| && filesize <= room
    ensures outcome == Aborted <==> room < Min(filesize, |src|)
    ensures outcome == Stalled <==> |src| < filesize && |src| <= room
  {
    var dataleft: u32 := filesize;
    var buffer := new byte[BUFFER_SIZE];
    written := [];
    while dataleft > 0
      invariant |written| + dataleft == filesize
      invariant |written| <= |src| && |written| <= room
      invariant written == src[..|written|]
      decreases dataleft
    {
      var fsize := Min(BUFFER_SIZE, dataleft);
      // fread: whatever the image still holds, up to fsize bytes
      var readData := Min(fsize, |src| - |written|);
      forall i | 0 <= i < readData {
        buffer[i] := src[|written| + i];
      }
      // fwrite: whatever the destination still has room for
      var writtenData := Min(readData, room - |written|);
      assert buffer[..writtenData] == src[|written|..|written| + writtenData];
      written := written + buffer[..writtenData];
      if readData != writtenData {
        return Aborted, written;
      }
      if readData == 0 {
        return Stalled, written;
      }
      dataleft := dataleft - readData;
    }
    return Copied, written;
  }

  /** How the program ends. */
  datatype Exit = Returned(code: int) | AbortCalled | Hangs

  /** The destination file afterwards: left alone, or truncated by
      `fopen(..., "wb")` and then given the bytes written to it. */
  datatype Destination = Untouched | Rewritten(contents: seq<byte>)

  /** The comparison at bootmgr.c:111 of two buffers that `snprintf` filled
      with fingerprints: `strncmp` finds them equal exactly when the
      fingerprints are. */
  lemma SameFingerprint(buf: seq<char>, outBuf: seq<char>, before: seq<char>, outBefore: seq<char>,
                        fp: string, outFp: string)
    requires |before| == SHA_DIGEST_STR_SIZE && |outBefore| == SHA_DIGEST_STR_SIZE
    requires |fp| < SHA_DIGEST_STR_SIZE && NoNul(fp) && |outFp| < SHA_DIGEST_STR_SIZE && NoNul(outFp)
    requires buf == SnprintfInto(before, fp) && outBuf == SnprintfInto(outBefore, outFp)
    ensures StrncmpEqual(buf, outBuf, SHA_DIGEST_STR_SIZE) <==> fp == outFp
  {
    assert Truncate(fp, SHA_DIGEST_STR_SIZE) == fp;
    assert Truncate(outFp, SHA_DIGEST_STR_SIZE) == outFp;
    StrncmpCStrings(buf, outBuf, fp, outFp, SHA_DIGEST_STR_SIZE);
  }

  /** The backup mode of `main` from the first `verify` on (bootmgr.c:91-137).
      `sha1sumInit` and `outSha1sumInit` are the initial contents of the two
      fingerprint buffers that `malloc` returns; `inOpens` and `outOpens`
      say whether re-opening the image for reading and the destination for
      writing succeed. The copy is skipped exactly when the destination
      verifies and its fingerprint equals the image's; `strncmp` over the
      whole buffers decides that, whatever the buffers held before. */
  method RunBackup(srcFile: ImageFile, dstFile: ImageFile, headerSize: u32,
                   srcBytes: seq<byte>, inOpens: bool, outOpens: bool, room: nat,
                   sha1sumInit: seq<char>, outSha1sumInit: seq<char>)
    returns (exit: Exit, dest: Destination)
    requires |sha1sumInit| == SHA_DIGEST_STR_SIZE && |outSha1sumInit| == SHA_DIGEST_STR_SIZE
    ensures var src := VerifyImage(srcFile, headerSize);
            var dst := VerifyImage(dstFile, headerSize);
      if !src.Verified? then
        exit == Returned(-1) && dest == Untouched
      else if dst.Verified? && dst.fingerprint == src.fingerprint then
        exit == Returned(0) && dest == Untouched
      else if !inOpens || !outOpens then
        exit == Returned(-1) && dest == (if outOpens then Rewritten([]) else Untouched)
      else
        && dest == Rewritten(srcBytes[..Min(Min(src.size, |srcBytes|), room)])
        && (exit == Returned(0) <==> src.size <= |srcBytes| && src.size <= room)
        && (exit == AbortCalled <==> room < Min(src.size, |srcBytes|))
        && (exit == Hangs <==> |srcBytes| < src.size && |srcBytes| <= room)
  {
    var src := VerifyImage(srcFile, headerSize);
    var dst := VerifyImage(dstFile, headerSize);
    var sha1sum := new char[SHA_DIGEST_STR_SIZE](i requires 0 <= i < SHA_DIGEST_STR_SIZE => sha1sumInit[i]);
    ghost var before := sha1sum[..];
    var rc, filesize := Verify(srcFile, headerSize, sha1sum, 0);
    if rc < 0 {
      return Returned(-1), Untouched;
    }
    var outSha1sum := new char[SHA_DIGEST_STR_SIZE](i requires 0 <= i < SHA_DIGEST_STR_SIZE => outSha1sumInit[i]);
    ghost var outBefore := outSha1sum[..];
    var outRc, outFilesize := Verify(dstFile, headerSize, outSha1sum, 0);
    if outRc == 0 {
      SameFingerprint(sha1sum[..], outSha1sum[..], before, outBefore,
                      src.fingerprint, dst.fingerprint);
      if StrncmpEqual(sha1sum[..], outSha1sum[..], SHA_DIGEST_STR_SIZE) {
        return Returned(0), Untouched;
      }
    }
    var dataleft := FromSigned(filesize);
    SignedRoundTrip(src.size, filesize);
    if !inOpens || !outOpens {
      return Returned(-1), if outOpens then Rewritten([]) else Untouched;
    }
    var outcome, written := CopyImage(dataleft, srcBytes, room);
    dest := Rewritten(written);
    exit := match outcome
      case Copied => Returned(0)
      case Aborted => AbortCalled
      case Stalled => Hangs;
  }
}
