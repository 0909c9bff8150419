/** `verify` of bootmgr.c: the checks it applies to a legacy Android boot
    image header, the image length it derives from the header (header,
    kernel and ramdisk rounded up to the page size, plus the second-stage
    size as it is), and the fingerprint it prints from the header's `id`. */
module BootImage {
  import opened Words
  import opened CStrings

  const BOOT_MAGIC: string := "ANDROID!"
  const BOOT_MAGIC_SIZE: nat := 8
  /** Size of the buffer the fingerprint is formatted into, NUL included. */
  const SHA_DIGEST_STR_SIZE: nat := 40

  type Magic = s: seq<char> | |s| == 8 witness "ANDROID!"
  type IdWords = s: seq<u32> | |s| == 8 witness [0, 0, 0, 0, 0, 0, 0, 0]

  /** The fields of `boot_img_hdr`. Its byte layout lives in bootimg.h and
      is not modelled: a header is taken as given. */
  datatype Header = Header(
    magic: Magic,
    kernelSize: u32, kernelAddr: u32,
    ramdiskSize: u32, ramdiskAddr: u32,
    secondSize: u32, secondAddr: u32,
    tagsAddr: u32, pageSize: u32,
    unused: seq<u32>,
    name: seq<char>, cmdline: seq<char>,
    id: IdWords)

  /** What opening an image file and reading its header yields. */
  datatype ImageFile = Unopenable | Readable(header: Header)

  /** What `verify` reports: open failure (-1), not a boot image (-2), or
      success (0) together with what it stored through `size` and `sha1sum`. */
  datatype Verdict = CannotOpen | NotBootImage | Verified(size: u32, fingerprint: string)

  function ReturnCode(v: Verdict): int
  {
    match v
    case CannotOpen => -1
    case NotBootImage => -2
    case Verified(_, _) => 0
  }

  /** `strncmp(hdr.magic, BOOT_MAGIC, BOOT_MAGIC_SIZE) == 0`. The magic has
      no NUL, so the comparison is exact over all eight characters. */
  function MagicMatches(m: Magic): (ok: bool)
    ensures ok <==> m == BOOT_MAGIC
  {
    assert NoNul(BOOT_MAGIC[..BOOT_MAGIC_SIZE]);
    StrncmpAgainstNoNul(m, BOOT_MAGIC, BOOT_MAGIC_SIZE);
    StrncmpEqual(m, BOOT_MAGIC, BOOT_MAGIC_SIZE)
  }

  // ---------------------------------------------------------------------
  // Page alignment

  /** `n + ((-n) & (p - 1))` on `unsigned int`. For a power-of-two page size
      it rounds `n` up to the next page boundary, modulo 2^32. Nothing
      rejects `p == 0`: the mask is then all ones and every value wraps
      to 0. */
  function AlignUp(n: u32, p: u32): (r: u32)
    ensures IsPowerOfTwo(p) ==> r == RoundUp(n, p) % TWO32
    ensures p == 0 ==> r == 0
  {
    var r := Add(n, And(Neg(n), Sub(p, 1)));
    MaskStepValue(n, p, r);
    r
  }

  ghost predicate IsPowerOfTwo(p: int)
  {
    exists k: nat :: k < 32 && p == Pow2(k)
  }

  /** Reference definition: the least multiple of `p` that is at least `n`. */
  function RoundUp(n: nat, p: nat): nat
    requires p >= 1
  {
    if n % p == 0 then n else n + (p - n % p)
  }

  lemma RoundUpBounds(n: nat, p: nat)
    requires p >= 1
    ensures RoundUp(n, p) % p == 0
    ensures n <= RoundUp(n, p) <= n + p - 1
    ensures n % p == 0 ==> RoundUp(n, p) == n
  {
    var t, r := n / p, n % p;
    if r != 0 {
      DivModUnique(RoundUp(n, p), p, t + 1, 0);
    }
  }

  /** Reducing modulo a multiple of `p` keeps the remainder modulo `p`. */
  lemma ModOfMod(x: int, p: int, c: int)
    requires p >= 1 && c >= 1
    ensures (x % (p * c)) % p == x % p
  {
    var big, r := x / (p * c), x % (p * c);
    var q, s := r / p, r % p;
    assert x == p * (c * big + q) + s;
    DivModUnique(x, p, c * big + q, s);
  }

  /** Euclidean remainder of `-n` modulo `p`. */
  lemma NegMod(n: int, p: int)
    requires p >= 1
    ensures (0 - n) % p == if n % p == 0 then 0 else p - n % p
  {
    var t, r := n / p, n % p;
    if r == 0 {
      DivModUnique(0 - n, p, -t, 0);
    } else {
      DivModUnique(0 - n, p, -t - 1, p - r);
    }
  }

  /** Adding two values reduced modulo 2^32 on `unsigned int` is reducing
      their sum. */
  lemma AddOfMods(x: nat, y: nat)
    ensures Add(x % TWO32, y % TWO32) == (x + y) % TWO32
  {
    var q1, r1 := x / TWO32, x % TWO32;
    var q2, r2 := y / TWO32, y % TWO32;
    var q3, r3 := (r1 + r2) / TWO32, (r1 + r2) % TWO32;
    DivModUnique(x + y, TWO32, q1 + q2 + q3, r3);
  }

  /** The masked negation is the Euclidean remainder of `-n` modulo `2^k`. */
  lemma MaskedNeg(n: u32, k: nat)
    requires k < 32
    ensures And(Neg(n), Pow2(k) - 1) == (0 - n) % Pow2(k)
  {
    var p, c := Pow2(k), Pow2(32 - k);
    Pow2Add(k, 32 - k);
    Pow2Is2To32();
    assert p * c == TWO32;
    AndLowMask(Neg(n), k);
    ModOfMod(0 - n, p, c);
  }

  /** What the mask step computes, for a power-of-two page size and for a
      zero one. */
  lemma MaskStepValue(n: u32, p: u32, r: u32)
    requires r == Add(n, And(Neg(n), Sub(p, 1)))
    ensures IsPowerOfTwo(p) ==> r == RoundUp(n, p) % TWO32
    ensures p == 0 ==> r == 0
  {
    if IsPowerOfTwo(p) {
      var k: nat :| k < 32 && p == Pow2(k);
      assert Sub(p, 1) == p - 1;
      MaskedNeg(n, k);
      NegMod(n, p);
      var pad := if n % p == 0 then 0 else p - n % p;
      assert And(Neg(n), Sub(p, 1)) == pad;
      assert RoundUp(n, p) == n + pad;
    }
    if p == 0 {
      Pow2Is2To32();
      AndLowMask(Neg(n), 32);
      DivModUnique(Neg(n), TWO32, 0, Neg(n));
      assert Sub(0, 1) == Pow2(32) - 1;
      assert And(Neg(n), Sub(0, 1)) == Neg(n);
    }
  }

  /** The alignment step yields a multiple of `p` in `[n, n + p - 1]`, for a
      power-of-two `p` when the rounded value fits in 32 bits. */
  lemma AlignUpBounds(n: u32, p: u32)
    requires IsPowerOfTwo(p)
    requires n + p - 1 < TWO32
    ensures AlignUp(n, p) % p == 0
    ensures n <= AlignUp(n, p) <= n + p - 1
  {
    var r := RoundUp(n, p);
    RoundUpBounds(n, p);
    assert r < TWO32;
    DivModUnique(r, TWO32, 0, r);
    assert AlignUp(n, p) == r;
  }

  /** Even when it wraps, the alignment step yields a multiple of a
      power-of-two `p`, since `p` divides 2^32. */
  lemma AlignUpIsMultiple(n: u32, p: u32)
    requires IsPowerOfTwo(p)
    ensures AlignUp(n, p) % p == 0
  {
    var k: nat :| k < 32 && p == Pow2(k);
    Pow2Add(k, 32 - k);
    Pow2Is2To32();
    RoundUpBounds(n, p);
    ModOfMod(RoundUp(n, p), p, Pow2(32 - k));
  }

  /** An already aligned value is left as it is. */
  lemma AlignUpOfAligned(n: u32, p: u32)
    requires IsPowerOfTwo(p)
    requires n % p == 0
    ensures AlignUp(n, p) == n
  {
    RoundUpBounds(n, p);
    DivModUnique(n, TWO32, 0, n);
  }

  lemma AlignUpIdempotent(n: u32, p: u32)
    requires IsPowerOfTwo(p)
    ensures AlignUp(AlignUp(n, p), p) == AlignUp(n, p)
  {
    AlignUpIsMultiple(n, p);
    AlignUpOfAligned(AlignUp(n, p), p);
  }

  /** The 64-bit negation and AND, truncated to 32 bits, agree with the
      32-bit ones. */
  lemma WideMaskAgrees(headerSize: u32, p: u32)
    ensures (headerSize + And((0 - headerSize) % TWO64, Sub(p, 1))) % TWO64 % TWO32
         == AlignUp(headerSize, p)
  {
    var wide := (0 - headerSize) % TWO64;
    var m := Sub(p, 1);
    Pow2Is2To32();
    assert TWO32 * TWO32 == TWO64;
    ModOfMod(0 - headerSize, TWO32, TWO32);
    assert wide % TWO32 == Neg(headerSize);
    AndLowBits(wide, m, 32);
    var masked := And(wide, m);
    assert masked == And(Neg(headerSize), m);
    DivModUnique(headerSize + masked, TWO64, 0, headerSize + masked);
  }

  /** `header_padding` (bootmgr.c:47): `sizeof` is a 64-bit `size_t`, so the
      negation and the AND happen at 64 bits and the sum is then truncated
      to `unsigned int`. That agrees with the 32-bit alignment step. */
  function HeaderPadding(headerSize: u32, p: u32): (r: u32)
    ensures r == AlignUp(headerSize, p)
  {
    WideMaskAgrees(headerSize, p);
    (headerSize + And((0 - headerSize) % TWO64, Sub(p, 1))) % TWO64 % TWO32
  }

  /** The image length `verify` stores through `*size` (bootmgr.c:47-51).
      For a power-of-two page size it is the header, kernel and ramdisk each
      rounded up to a page, plus the raw second-stage size, all modulo 2^32;
      with `page_size == 0` the three aligned regions vanish and it is the
      second-stage size alone. */
  function ImageSize(h: Header, headerSize: u32): (r: u32)
    ensures IsPowerOfTwo(h.pageSize) ==>
      (r == (RoundUp(headerSize, h.pageSize) + RoundUp(h.kernelSize, h.pageSize)
             + RoundUp(h.ramdiskSize, h.pageSize) + h.secondSize) % TWO32)
    ensures h.pageSize == 0 ==> r == h.secondSize
  {
    var p := h.pageSize;
    var r := Add(Add(Add(HeaderPadding(headerSize, p), AlignUp(h.kernelSize, p)),
                     AlignUp(h.ramdiskSize, p)),
                 h.secondSize);
    RegionsSum(headerSize, h.kernelSize, h.ramdiskSize, h.secondSize, p, r);
    r
  }

  /** The sum of three aligned regions and an unaligned one, on
      `unsigned int`. */
  lemma RegionsSum(n1: u32, n2: u32, n3: u32, s: u32, p: u32, r: u32)
    requires r == Add(Add(Add(HeaderPadding(n1, p), AlignUp(n2, p)), AlignUp(n3, p)), s)
    ensures IsPowerOfTwo(p) ==>
      (r == (RoundUp(n1, p) + RoundUp(n2, p) + RoundUp(n3, p) + s) % TWO32)
    ensures p == 0 ==> r == s
  {
    if IsPowerOfTwo(p) {
      SumOfReduced(RoundUp(n1, p), RoundUp(n2, p), RoundUp(n3, p), s);
    }
  }

  /** Summing values reduced modulo 2^32 on `unsigned int` is reducing the
      sum. */
  lemma SumOfReduced(a: nat, b: nat, c: nat, s: u32)
    ensures Add(Add(Add(a % TWO32, b % TWO32), c % TWO32), s) == (a + b + c + s) % TWO32
  {
    DivModUnique(s, TWO32, 0, s);
    AddOfMods(a, b);
    AddOfMods(a + b, c);
    AddOfMods(a + b + c, s);
  }

  // ---------------------------------------------------------------------
  // Fingerprint

  /** What the format `"%X%X%X%X%X"` expands to for `id[0..4]`: 5 to 40
      hex digits, 40 exactly when each of the five words needs all eight. */
  function IdText(id: IdWords): (t: string)
    ensures 5 <= |t| <= 40 && AllHexDigits(t) && NoNul(t)
    ensures |t| == 40 <==> forall i :: 0 <= i < 5 ==> id[i] >= 0x1000_0000
  {
    HexOfWord(id[0]);
    HexOfWord(id[1]);
    HexOfWord(id[2]);
    HexOfWord(id[3]);
    HexOfWord(id[4]);
    HexDigitsAppend(Hex(id[0]), Hex(id[1]));
    HexDigitsAppend(Hex(id[0]) + Hex(id[1]), Hex(id[2]));
    HexDigitsAppend(Hex(id[0]) + Hex(id[1]) + Hex(id[2]), Hex(id[3]));
    HexDigitsAppend(Hex(id[0]) + Hex(id[1]) + Hex(id[2]) + Hex(id[3]), Hex(id[4]));
    Hex(id[0]) + Hex(id[1]) + Hex(id[2]) + Hex(id[3]) + Hex(id[4])
  }

  /** The string `snprintf(sha1sum, SHA_DIGEST_STR_SIZE, "%X%X%X%X%X", ...)`
      leaves in the buffer (bootmgr.c:53): the hex text of the first five
      id words, cut to 39 characters, which happens only when each of the
      five words needs all eight digits. */
  function Fingerprint(id: IdWords): (fp: string)
    ensures |fp| == Min(|IdText(id)|, SHA_DIGEST_STR_SIZE - 1)
    ensures 5 <= |fp| < SHA_DIGEST_STR_SIZE && |fp| <= |IdText(id)|
    ensures fp == IdText(id)[..|fp|]
    ensures AllHexDigits(fp) && NoNul(fp)
    ensures |fp| < |IdText(id)| <==> forall i :: 0 <= i < 5 ==> id[i] >= 0x1000_0000
  {
    var text := IdText(id);
    var fp := Truncate(text, SHA_DIGEST_STR_SIZE);
    assert AllHexDigits(fp) by {
      forall i | 0 <= i < |fp| ensures IsHexDigit(fp[i]) {
        assert fp[i] == text[i];
      }
    }
    fp
  }

  // ---------------------------------------------------------------------
  // verify

  /** `verify` as a value: the failure it reports, or the image length and
      fingerprint it stores. */
  function VerifyImage(file: ImageFile, headerSize: u32): (v: Verdict)
    ensures v == CannotOpen <==> file.Unopenable?
    ensures v.Verified? <==>
      file.Readable? && file.header.magic == BOOT_MAGIC
      && file.header.kernelSize >= 1 && file.header.ramdiskSize >= 1
    ensures v.Verified? ==>
      v.size == ImageSize(file.header, headerSize) && v.fingerprint == Fingerprint(file.header.id)
  {
    match file
    case Unopenable => CannotOpen
    case Readable(h) =>
      if !MagicMatches(h.magic) then NotBootImage
      else if h.kernelSize < 1 || h.ramdiskSize < 1 then NotBootImage
      else Verified(ImageSize(h, headerSize), Fingerprint(h.id))
  }

  /** A header whose magic differs from "ANDROID!" in any position is not a
      boot image, whatever its other fields say. */
  lemma BadMagicRejected(h: Header, headerSize: u32, i: nat)
    requires i < BOOT_MAGIC_SIZE && h.magic[i] != BOOT_MAGIC[i]
    ensures VerifyImage(Readable(h), headerSize) == NotBootImage
  {
  }

  /** A header with the right magic but an empty kernel or ramdisk is not a
      boot image either. */
  lemma EmptySegmentRejected(h: Header, headerSize: u32)
    requires h.magic == BOOT_MAGIC
    requires h.kernelSize == 0 || h.ramdiskSize == 0
    ensures VerifyImage(Readable(h), headerSize) == NotBootImage
  {
  }

  /** The fingerprint depends on the first five id words only: names,
      command lines, addresses, sizes and `id[5..7]` play no part. */
  lemma FingerprintUsesFirstFiveWords(h1: Header, h2: Header, headerSize: u32)
    requires VerifyImage(Readable(h1), headerSize).Verified?
    requires VerifyImage(Readable(h2), headerSize).Verified?
    requires h1.id[..5] == h2.id[..5]
    ensures VerifyImage(Readable(h1), headerSize).fingerprint
         == VerifyImage(Readable(h2), headerSize).fingerprint
  {
    assert forall i :: 0 <= i < 5 ==> h1.id[i] == h1.id[..5][i];
    assert forall i :: 0 <= i < 5 ==> h2.id[i] == h2.id[..5][i];
  }

  /** Without separators, different id words can print the same text:
      1, 0x23 and 0x12, 3 both give "123". */
  lemma FingerprintSeparatorCollision()
    ensures Fingerprint([1, 0x23, 0, 0, 0, 0, 0, 0]) == Fingerprint([0x12, 3, 0, 0, 0, 0, 0, 0])
  {
    assert Hex(0x23) == "23";
    assert Hex(0x12) == "12";
  }

  /** When all five words have eight digits, the fingerprint is the first
      four words in full and the top seven digits of the fifth. */
  lemma FullWidthFingerprint(id: IdWords)
    requires forall i :: 0 <= i < 5 ==> id[i] >= 0x1000_0000
    ensures Fingerprint(id) == Hex(id[0]) + Hex(id[1]) + Hex(id[2]) + Hex(id[3]) + Hex(id[4] / 16)
  {
    HexOfWord(id[0]);
    HexOfWord(id[1]);
    HexOfWord(id[2]);
    HexOfWord(id[3]);
    HexOfWord(id[4]);
    var top := id[4] / 16;
    assert Pow16(6) == 0x100_0000 && Pow16(7) == 0x1000_0000;
    HexLength(top, 7);
    HexLength(top, 6);
    var prefix := Hex(id[0]) + Hex(id[1]) + Hex(id[2]) + Hex(id[3]) + Hex(top);
    assert |prefix| == 39;
    assert IdText(id) == prefix + [HexDigit(id[4] % 16)];
    assert IdText(id)[..39] == prefix;
  }

  /** Truncation to 39 characters drops the last digit of `id[4]` when all
      five words have eight digits: ids that differ only in that digit
      have the same fingerprint. */
  lemma FingerprintTruncationCollision(a: IdWords, b: IdWords)
    requires a[..4] == b[..4]
    requires forall i :: 0 <= i < 5 ==> a[i] >= 0x1000_0000
    requires b[4] >= 0x1000_0000 && a[4] / 16 == b[4] / 16
    ensures Fingerprint(a) == Fingerprint(b)
  {
    assert forall i :: 0 <= i < 4 ==> a[i] == a[..4][i] && b[i] == b[..4][i];
    FullWidthFingerprint(a);
    FullWidthFingerprint(b);
  }

  /** `ImageSize`'s power-of-two clause, for use where the header's fields
      are known numbers. */
  lemma PageAlignedImageSize(h: Header, headerSize: u32)
    requires IsPowerOfTwo(h.pageSize)
    ensures ImageSize(h, headerSize) ==
      (RoundUp(headerSize, h.pageSize) + RoundUp(h.kernelSize, h.pageSize)
       + RoundUp(h.ramdiskSize, h.pageSize) + h.secondSize) % TWO32
  {
    RegionsSum(headerSize, h.kernelSize, h.ramdiskSize, h.secondSize, h.pageSize,
               ImageSize(h, headerSize));
  }

  lemma ExampleRegions(h: Header, headerSize: u32)
    requires headerSize == 2048 && h.pageSize == 2048
    requires h.kernelSize == 5000 && h.ramdiskSize == 3000 && h.secondSize == 0
    ensures (RoundUp(headerSize, h.pageSize) + RoundUp(h.kernelSize, h.pageSize)
             + RoundUp(h.ramdiskSize, h.pageSize) + h.secondSize) % TWO32 == 12288
  {
    assert RoundUp(headerSize, h.pageSize) == 2048;
    assert RoundUp(h.kernelSize, h.pageSize) == 6144;
    assert RoundUp(h.ramdiskSize, h.pageSize) == 4096;
    var total := 2048 + 6144 + 4096;
    DivModUnique(total, TWO32, 0, total);
  }

  lemma TwoKIsPowerOfTwo()
    ensures IsPowerOfTwo(2048)
  {
    assert Pow2(3) == 8 && Pow2(4) == 16;
    Pow2Add(4, 4);
    Pow2Add(8, 3);
  }

  /** For a 2048-byte page and a 2048-byte header, kernel 5000 and
      ramdisk 3000 round up to 6144 and 4096, 12288 in all. */
  lemma ImageSizeExample(h: Header, headerSize: u32)
    requires headerSize == 2048 && h.pageSize == 2048
    requires h.kernelSize == 5000 && h.ramdiskSize == 3000 && h.secondSize == 0
    ensures ImageSize(h, headerSize) == 12288
  {
    TwoKIsPowerOfTwo();
    PageAlignedImageSize(h, headerSize);
    ExampleRegions(h, headerSize);
  }

  /** `verify` (bootmgr.c:30-71) on a header already read: the return code,
      and the values it stores through `size` and into `sha1sum` on
      success; on failure neither is touched. */
  method Verify(file: ImageFile, headerSize: u32, sha1sum: array<char>, size: i32)
    returns (rc: int, newSize: i32)
    requires sha1sum.Length == SHA_DIGEST_STR_SIZE
    modifies sha1sum
    ensures var v := VerifyImage(file, headerSize);
      && rc == ReturnCode(v)
      && (v.Verified? ==>
            newSize == ToSigned(v.size)
            && sha1sum[..] == SnprintfInto(old(sha1sum[..]), v.fingerprint))
      && (!v.Verified? ==> newSize == size && sha1sum[..] == old(sha1sum[..]))
  {
    newSize := size;
    match file {
      case Unopenable =>
        return -1, size;
      case Readable(hdr) =>
        if !MagicMatches(hdr.magic) {
          return -2, size;
        }
        if hdr.kernelSize < 1 || hdr.ramdiskSize < 1 {
          return -2, size;
        }
        var headerPadding := HeaderPadding(headerSize, hdr.pageSize);
        var kernelPadding := AlignUp(hdr.kernelSize, hdr.pageSize);
        var ramdiskPadding := AlignUp(hdr.ramdiskSize, hdr.pageSize);
        newSize := ToSigned(Add(Add(Add(headerPadding, kernelPadding), ramdiskPadding), hdr.secondSize));
        Snprintf(sha1sum, IdText(hdr.id));
        assert Truncate(Fingerprint(hdr.id), SHA_DIGEST_STR_SIZE) == Fingerprint(hdr.id);
        rc := 0;
    }
  }
}
