# bootmgr: a Dafny model of the Android boot-image inspector

bootmgr is a small command-line tool for legacy Android boot images. It
reads an image's header and identifies the file as a boot image by its
magic `"ANDROID!"` and its non-empty kernel and ramdisk. From the header it
computes the image length: the header, the kernel and the ramdisk, each
rounded up to the page size with the mask trick `n + ((-n) & (p - 1))`,
plus the second-stage size unaligned. It also prints a fingerprint: the
first five `id` words in upper-case hex, run together. In backup mode it
copies exactly that many bytes to a destination, in chunks of at most
2048 bytes. It skips the copy when the destination already verifies with
the same fingerprint.

The model has four modules:

- `Words` (words.dfy) models C `unsigned int` arithmetic modulo 2^32. It
  defines bitwise AND on naturals and proves that ANDing with `2^k - 1` is
  reduction modulo `2^k`. It also models the `unsigned int` to `int` and
  back conversion the program performs on the image length.
- `CStrings` (cstrings.dfy) models `strncmp`, the `%X` conversion and the
  truncation `snprintf` applies to a 40-byte buffer.
- `BootImage` (bootimg.dfy) holds the header record, `verify` as the
  function `VerifyImage`, and the method `Verify`, which writes the results
  through its out-parameters as the C function does.
- `Backup` (backup.dfy) holds the chunked copy loop `CopyImage` and the
  backup mode of `main`, `RunBackup`.

All arithmetic follows the C types. Sums wrap modulo 2^32. The header
padding is computed in a 64-bit `size_t`, because `sizeof` yields one, and
then truncated to 32 bits; `HeaderPadding` proves this equals the 32-bit
computation. `sizeof(boot_img_hdr)` is the parameter `headerSize`. The
program does not reject `page_size == 0`. The mask is then all ones, every
aligned region wraps to 0, and the image length is `second_size` alone
(the zero-page clause of `ImageSize`).

The copy loop's I/O is modelled by what it does:

- The image is the sequence of bytes `fread` can still deliver. After the
  last byte, every read returns 0.
- The destination accepts at most `room` bytes; after that `fwrite`
  returns a short count. Only the first short write matters, because it
  aborts the program, so one `room` covers every pattern of short writes.

The image can hold fewer bytes than the header claims, for example when
the file is truncated. Then a read returns 0 while `dataleft > 0`. Nothing
is subtracted, and the C loop repeats forever. `CopyImage` stops at that
point and reports `Stalled`, and `RunBackup` reports `Hangs`.

Four behaviours of the program are worth knowing:

- A zero `page_size` is not rejected (see above).
- Different id words can give the same fingerprint. `%X` has no padding
  and no separator (`FingerprintSeparatorCollision`), and `snprintf` drops
  the fortieth digit (`FingerprintTruncationCollision`).
- A short header read is not reported.
- The skip decision compares fingerprints only, not sizes or contents.

## Model

| member | source | states |
|---|---|---|
| `Words.Add` | bootmgr.c:47-51 | `+` on `unsigned int` is the sum, less 2^32 exactly when the sum reaches 2^32 |
| `Words.Sub` | bootmgr.c:47-49 | `-` on `unsigned int` is the difference, plus 2^32 exactly when it would be negative (so `page_size - 1` for page 0 is all ones) |
| `Words.Neg` | bootmgr.c:47-49 | unary `-` on `unsigned int` gives 0 for 0 and `2^32 - n` otherwise, the value that added to `n` wraps to 0 |
| `Words.And` | bootmgr.c:47-49 | `&` gives a value no larger than either operand; `AndLowMask` and `AndLowBits` give its value on the masks the program uses |
| `Words.AndLowMask` | bootmgr.c:47-49 | ANDing with `2^k - 1` is reduction modulo `2^k`, which is the basis of the mask trick |
| `Words.AndLowBits` | bootmgr.c:47 | ANDing with a mask below `2^k` sees only the low `k` bits, so a 64-bit AND truncated to 32 bits equals the 32-bit AND |
| `Words.ToSigned` | bootmgr.c:51 | storing an `unsigned int` into `int` keeps the value below 2^31 and subtracts 2^32 from larger ones, which are exactly the ones that become negative |
| `Words.FromSigned` | bootmgr.c:115 | reading an `int` into `unsigned int` keeps a non-negative value and adds 2^32 to a negative one |
| `Words.SignedRoundTrip` | bootmgr.c:51 | storing the unsigned image length through `int *size` and reading it back into `unsigned int dataleft` (line 115) gives the same value, and the other way round |
| `CStrings.StrncmpEqual` | bootmgr.c:42 | `strncmp(a, b, n) == 0` exactly when every position below `n` that `a` reaches before a NUL holds the same character in both (`AgreeUpToNul`) |
| `CStrings.StrncmpAgainstNoNul` | bootmgr.c:42 | `strncmp` over `n` characters, against a string with no NUL in them, is exact equality of the `n` characters |
| `CStrings.StrncmpCStrings` | bootmgr.c:111 | two buffers holding NUL-terminated strings shorter than `n` compare equal under `strncmp(.., n)` exactly when the strings are equal, whatever follows the NUL |
| `CStrings.Hex` | bootmgr.c:53 | `%X` prints at least one upper-case hex digit, never a NUL, and a leading `0` only for zero |
| `CStrings.HexRoundTrip` | bootmgr.c:53 | parsing the `%X` text of a number gives the number back |
| `CStrings.HexLength` | bootmgr.c:53 | `%X` uses at most `k` digits exactly when the value is below `16^k` |
| `CStrings.HexOfWord` | bootmgr.c:53 | a 32-bit word prints as 1 to 8 digits, and as 8 exactly when it is at least `0x10000000` |
| `CStrings.Truncate` | bootmgr.c:53 | `snprintf` into a buffer of `size` bytes keeps a prefix of `min(length, size - 1)` characters of the formatted text |
| `CStrings.SnprintfInto` | bootmgr.c:53 | after `snprintf` the buffer holds the truncated text and a NUL, and the bytes after the NUL are as before |
| `CStrings.Snprintf` | bootmgr.c:53 | writing into a buffer of fixed length leaves exactly the contents `SnprintfInto` describes, and changes nothing else |
| `BootImage.MagicMatches` | bootmgr.c:42-43 | the `strncmp` magic test passes exactly when the 8 magic bytes equal `"ANDROID!"` |
| `BootImage.VerifyImage` | bootmgr.c:35-53 | -1 exactly for an unopenable file; success exactly for magic `"ANDROID!"` with kernel and ramdisk sizes at least 1; on success the image length and fingerprint |
| `BootImage.BadMagicRejected` | bootmgr.c:42-43 | a magic differing from `"ANDROID!"` in any position gives -2, whatever the other fields are |
| `BootImage.EmptySegmentRejected` | bootmgr.c:44-45 | correct magic with a zero kernel or ramdisk size gives -2 |
| `BootImage.RoundUpBounds` | bootmgr.c:48-49 | the reference rounding gives a multiple of `p` in `[n, n + p - 1]`, and `n` itself when `n` is aligned |
| `BootImage.AlignUp` | bootmgr.c:48-49 | for a power-of-two page size, `n + ((-n) & (p - 1))` on `unsigned int` is the least multiple of `p` at least `n` (`RoundUp`), modulo 2^32; with `page_size == 0` it is 0 |
| `BootImage.AlignUpBounds` | bootmgr.c:47-49 | for a power-of-two `p` without 32-bit overflow, the alignment step gives a multiple of `p` in `[n, n + p - 1]` |
| `BootImage.AlignUpIsMultiple` | bootmgr.c:47-49 | for a power-of-two `p`, the result is a multiple of `p` even when the sum wraps |
| `BootImage.AlignUpOfAligned` | bootmgr.c:47-49 | an already aligned `n` is unchanged |
| `BootImage.AlignUpIdempotent` | bootmgr.c:47-49 | aligning twice gives the same as aligning once |
| `BootImage.HeaderPadding` | bootmgr.c:47 | the header padding, computed in 64-bit `size_t` and truncated, equals the 32-bit alignment of `headerSize` |
| `BootImage.ImageSize` | bootmgr.c:47-51 | for a power-of-two page size, `*size` is the sum of the rounded header, kernel and ramdisk (`RoundUp`) plus the unaligned `second_size`, modulo 2^32; with `page_size == 0` it is `second_size` |
| `BootImage.ImageSizeExample` | bootmgr.c:47-51 | page 2048, header 2048, kernel 5000, ramdisk 3000, no second stage: 12288 |
| `BootImage.IdText` | bootmgr.c:53 | `"%X%X%X%X%X"` of `id[0..4]` expands to 5 to 40 upper-case hex digits, 40 exactly when all five words have 8 digits |
| `BootImage.Fingerprint` | bootmgr.c:53 | the fingerprint is the first `min(length, 39)` characters of the five `%X` texts run together, 5 to 39 upper-case hex digits, and shorter than that text exactly when all five words have 8 digits |
| `BootImage.FingerprintUsesFirstFiveWords` | bootmgr.c:53 | two valid headers whose `id[0..4]` agree have the same fingerprint, whatever their other fields |
| `BootImage.FingerprintSeparatorCollision` | bootmgr.c:53 | ids starting 1, 0x23 and 0x12, 3 have the same fingerprint |
| `BootImage.FingerprintTruncationCollision` | bootmgr.c:53 | ids whose five words all have 8 digits and differ only in the last digit of `id[4]` have the same fingerprint |
| `BootImage.Verify` | bootmgr.c:30-71 | returns `VerifyImage`'s code; on success stores the image length (as `int`) and writes the fingerprint and a NUL into `sha1sum`; on failure changes neither |
| `Backup.CopyImage` | bootmgr.c:115-131 | `fwrite` accepts the source bytes in order, `min(filesize, available, room)` of them; ends normally exactly when all `filesize` bytes can be read and written; aborts exactly on a short write; stalls exactly when the source runs out first |
| `Backup.SameFingerprint` | bootmgr.c:110-111 | `strncmp` over the two 40-byte buffers that `snprintf` filled finds them equal exactly when the two fingerprints are equal |
| `Backup.RunBackup` | bootmgr.c:91-137 | returns -1 unless the image verifies; returns 0 without touching the destination exactly when the destination verifies with the same fingerprint; otherwise -1 if a file cannot be opened (the destination is truncated if it was opened), else copies as `CopyImage` states |

## Left out

- File handling (`fopen`, `fread`, `fclose`, `fwrite`) is modelled by its effect. An image file is `Unopenable` or a header as read. The copy source is a byte sequence. The destination has a capacity that ends in a short write.
- The byte layout of `boot_img_hdr` and its decoding: bootimg.h is not part of this model. A header is a record taken as given. The short `fread` of bootmgr.c:38 is not checked by the program and is not modelled. So there is no decode/encode round trip and no short-read error.
- `sizeof(boot_img_hdr)` is the parameter `headerSize` (608 in the classic layout); `size_t` is taken to be 64 bits.
- The verbose dump (bootmgr.c:55-69), the usage text, the `argv` flag matching, and the `-d` and `-c` modes (bootmgr.c:81-102, 139) are console output.
- The `debug`/`ALOGV` macros, the `malloc` calls (their contents are parameters of `RunBackup`), and `abort()` itself, which is an outcome.
- stdio buffering: `CopyImage` returns the bytes `fwrite` accepted (its return counts), in order. What reaches the disk before an abort, or during a hang, is not modelled. `fclose` results are ignored by the program and not modelled.
- A read that comes back short and is followed by more data, as on a pipe, is not modelled; the image is a regular file whose reads are short only at its end.
- Words.ToSigned: storing an `unsigned int` of 2^31 or more into `int` (bootmgr.c:51) is implementation-defined in C; the model assumes wrap-around modulo 2^32, as GCC and Clang do.
- A missing destination argument in backup mode (`argv[3]` when `argc == 3`) is not modelled.
