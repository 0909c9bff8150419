/** The pieces of the C library that bootmgr.c leans on for its text:
    `strncmp` (magic check and fingerprint comparison), the `%X` conversion
    of `printf` and the truncation that `snprintf` applies to a bounded
    buffer. C character buffers are sequences of `char`; NUL ends a string. */
module CStrings {
  import opened Words

  const NUL: char := '\0'

  predicate NoNul(s: string)
  {
    forall i :: 0 <= i < |s| ==> s[i] != NUL
  }

  /** Reference definition of `strncmp(a, b, n) == 0`: every position
      below `n` that `a` reaches before a NUL holds the same character in
      both. */
  ghost predicate AgreeUpToNul(a: seq<char>, b: seq<char>, n: nat)
    requires n <= |a| && n <= |b|
  {
    forall i :: 0 <= i < n && NoNul(a[..i]) ==> a[i] == b[i]
  }

  /** Peeling the first position off `AgreeUpToNul`. */
  lemma AgreeUpToNulStep(a: seq<char>, b: seq<char>, n: nat)
    requires 0 < n <= |a| && n <= |b|
    ensures AgreeUpToNul(a, b, n) <==>
      a[0] == b[0] && (a[0] == NUL || AgreeUpToNul(a[1..], b[1..], n - 1))
  {
    var a', b' := a[1..], b[1..];
    assert NoNul(a[..0]);
    if AgreeUpToNul(a, b, n) && a[0] != NUL {
      forall j | 0 <= j < n - 1 && NoNul(a'[..j]) ensures a'[j] == b'[j] {
        var pre, pre' := a[..j + 1], a'[..j];
        assert NoNul(pre) by {
          forall i | 0 <= i < j + 1 ensures pre[i] != NUL {
            if i > 0 {
              assert pre[i] == pre'[i - 1];
            }
          }
        }
        assert a[j + 1] == b[j + 1];
      }
    }
    if a[0] == b[0] && (a[0] == NUL || AgreeUpToNul(a', b', n - 1)) {
      forall i | 0 <= i < n && NoNul(a[..i]) ensures a[i] == b[i] {
        if i > 0 {
          assert a[..i][0] == a[0];
          var pre, pre' := a[..i], a'[..i - 1];
          assert NoNul(pre') by {
            forall j | 0 <= j < i - 1 ensures pre'[j] != NUL {
              assert pre'[j] == pre[j + 1];
            }
          }
          assert a'[i - 1] == b'[i - 1];
        }
      }
    }
  }

  /** `strncmp(a, b, n) == 0`: the characters are compared in order and the
      comparison stops early at a NUL that both strings have. */
  function StrncmpEqual(a: seq<char>, b: seq<char>, n: nat): (r: bool)
    requires n <= |a| && n <= |b|
    ensures r <==> AgreeUpToNul(a, b, n)
  {
    if n == 0 then true
    else
      AgreeUpToNulStep(a, b, n);
      a[0] == b[0] && (a[0] == NUL || StrncmpEqual(a[1..], b[1..], n - 1))
  }

  /** Against a string with no NUL in its first `n` characters, `strncmp`
      over `n` characters is plain equality of those characters. */
  lemma {:induction false} StrncmpAgainstNoNul(a: seq<char>, b: seq<char>, n: nat)
    requires n <= |a| && n <= |b|
    requires NoNul(b[..n])
    ensures StrncmpEqual(a, b, n) <==> a[..n] == b[..n]
  {
    if n > 0 {
      var rest := b[1..][..n - 1];
      assert NoNul(rest) by {
        forall i | 0 <= i < n - 1 ensures rest[i] != NUL {
          assert rest[i] == b[..n][i + 1];
        }
      }
      StrncmpAgainstNoNul(a[1..], b[1..], n - 1);
      assert a[..n] == [a[0]] + a[1..][..n - 1];
      assert b[..n] == [b[0]] + b[1..][..n - 1];
      assert b[..n][0] == b[0];
    }
  }

  /** Two buffers that each start with a NUL-terminated string shorter than
      `n` compare equal under `strncmp(a, b, n)` exactly when the strings are
      equal; whatever lies in the buffers after the NUL plays no part. */
  lemma {:induction false} StrncmpCStrings(a: seq<char>, b: seq<char>, s: string, t: string, n: nat)
    requires n <= |a| && n <= |b|
    requires |s| < n && |t| < n
    requires NoNul(s) && NoNul(t)
    requires a[..|s| + 1] == s + [NUL] && b[..|t| + 1] == t + [NUL]
    ensures StrncmpEqual(a, b, n) <==> s == t
  {
    assert a[0] == (s + [NUL])[0] && b[0] == (t + [NUL])[0];
    if s == [] || t == [] {
      if s != [] {
        assert a[0] == s[0] != NUL;
      } else if t != [] {
        assert b[0] == t[0] != NUL;
      }
    } else if s[0] != t[0] {
      assert a[0] == s[0] && b[0] == t[0];
    } else {
      assert a[0] == s[0] != NUL;
      var a', b', s', t' := a[1..], b[1..], s[1..], t[1..];
      assert a'[..|s'| + 1] == a[1..|s| + 1] == (s + [NUL])[1..] == s' + [NUL];
      assert b'[..|t'| + 1] == b[1..|t| + 1] == (t + [NUL])[1..] == t' + [NUL];
      assert NoNul(s') by { assert forall i :: 0 <= i < |s'| ==> s'[i] == s[i + 1]; }
      assert NoNul(t') by { assert forall i :: 0 <= i < |t'| ==> t'[i] == t[i + 1]; }
      StrncmpCStrings(a', b', s', t', n - 1);
      assert s == [s[0]] + s' && t == [t[0]] + t';
    }
  }

  /** The string `snprintf(buf, size, ...)` leaves in `buf` when the format
      expands to `text`: at most `size - 1` characters of it. */
  function Truncate(text: string, size: nat): (r: string)
    requires size >= 1
    ensures |r| == Min(|text|, size - 1) && r == text[..|r|]
  {
    if |text| < size then text else text[..size - 1]
  }

  /** The whole buffer after `snprintf` wrote `text` into it: the truncated
      text, its terminating NUL, and the old contents beyond that. */
  function SnprintfInto(before: seq<char>, text: string): (after: seq<char>)
    requires |before| >= 1
    ensures |after| == |before|
    ensures after[..|Truncate(text, |before|)| + 1] == Truncate(text, |before|) + [NUL]
    ensures after[|Truncate(text, |before|)| + 1..] == before[|Truncate(text, |before|)| + 1..]
  {
    var s := Truncate(text, |before|);
    var after := s + [NUL] + before[|s| + 1..];
    assert after[..|s| + 1] == s + [NUL];
    after
  }

  /** `snprintf(buf, buf.Length, ...)` storing the expansion `text`. */
  method Snprintf(buf: array<char>, text: string)
    requires buf.Length >= 1
    modifies buf
    ensures buf[..] == SnprintfInto(old(buf[..]), text)
  {
    ghost var before := buf[..];
    var s := Truncate(text, buf.Length);
    forall i | 0 <= i < |s| {
      buf[i] := s[i];
    }
    buf[|s|] := NUL;
    assert buf[..] == s + [NUL] + before[|s| + 1..] by {
      assert buf[..|s| + 1] == s + [NUL];
      assert buf[..] == buf[..|s| + 1] + buf[|s| + 1..];
    }
  }

  predicate IsHexDigit(c: char)
  {
    '0' <= c <= '9' || 'A' <= c <= 'F'
  }

  predicate AllHexDigits(s: string)
  {
    forall i :: 0 <= i < |s| ==> IsHexDigit(s[i])
  }

  lemma HexDigitsAppend(s: string, t: string)
    requires AllHexDigits(s) && AllHexDigits(t)
    ensures AllHexDigits(s + t)
  {
    forall i | 0 <= i < |s + t| ensures IsHexDigit((s + t)[i]) {
      if i < |s| {
        assert (s + t)[i] == s[i];
      } else {
        assert (s + t)[i] == t[i - |s|];
      }
    }
  }

  /** The digit `%X` prints for a value below 16 (upper case). */
  function HexDigit(d: nat): (c: char)
    requires d < 16
    ensures IsHexDigit(c) && c != NUL
    ensures (c == '0') <==> (d == 0)
  {
    if d < 10 then ('0' as int + d) as char else ('A' as int + d - 10) as char
  }

  function DigitValue(c: char): (d: nat)
    requires IsHexDigit(c)
    ensures d < 16 && HexDigit(d) == c
  {
    if c <= '9' then c as int - '0' as int else c as int - 'A' as int + 10
  }

  /** `%X`: upper-case hexadecimal, no leading zeros, "0" for zero. */
  function Hex(x: nat): (s: string)
    ensures 1 <= |s| && AllHexDigits(s) && NoNul(s)
    ensures s[0] == '0' <==> x == 0
    decreases x
  {
    if x < 16 then [HexDigit(x)] else Hex(x / 16) + [HexDigit(x % 16)]
  }

  /** Reading a hexadecimal numeral back. */
  function ParseHex(s: string): nat
    requires AllHexDigits(s)
  {
    if s == [] then 0 else 16 * ParseHex(s[..|s| - 1]) + DigitValue(s[|s| - 1])
  }

  /** `%X` loses nothing: parsing what it prints gives the number back. */
  lemma {:induction false} HexRoundTrip(x: nat)
    ensures ParseHex(Hex(x)) == x
  {
    var s := Hex(x);
    if x >= 16 {
      HexRoundTrip(x / 16);
      assert s[..|s| - 1] == Hex(x / 16);
    }
  }

  function Pow16(k: nat): (r: nat)
    ensures r >= 1
  {
    if k == 0 then 1 else 16 * Pow16(k - 1)
  }

  /** `%X` of `x` uses at most `k` digits exactly when `x < 16^k`. */
  lemma {:induction false} HexLength(x: nat, k: nat)
    requires k >= 1
    ensures |Hex(x)| <= k <==> x < Pow16(k)
  {
    if x >= 16 {
      if k == 1 {
        assert |Hex(x)| == |Hex(x / 16)| + 1;
      } else {
        HexLength(x / 16, k - 1);
      }
    } else if k > 1 {
      assert Pow16(k) == 16 * Pow16(k - 1);
    }
  }

  /** A 32-bit word prints as one to eight hex digits, and as eight exactly
      when its top digit is not zero. */
  lemma HexOfWord(x: u32)
    ensures 1 <= |Hex(x)| <= 8
    ensures |Hex(x)| == 8 <==> x >= 0x1000_0000
  {
    assert Pow16(7) == 0x1000_0000;
    assert Pow16(8) == TWO32;
    HexLength(x, 8);
    HexLength(x, 7);
  }
}
