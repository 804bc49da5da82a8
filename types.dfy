/** Machine-level types shared by the file system modules: 32-bit words
    (`uint`), bytes, unsigned wrap-around, the little-endian layout of a
    word in memory, and NUL-terminated C strings held in byte arrays. */
module Fs33Types {

  datatype Option<T> = None | Some(value: T)

  const WORD_MOD: int := 0x1_0000_0000

  /** An unsigned 32-bit word (`uint` in the source). */
  type Word = x: int | 0 <= x < WORD_MOD

  /** A signed 32-bit integer (`int` in the source). */
  type Int32 = x: int | -0x8000_0000 <= x < 0x8000_0000

  newtype byte = x: int | 0 <= x < 256

  /** Width in bytes of one inode field and of an i-number in a directory
      record: `sizeof(uint)`. */
  const I_WIDTH: nat := 4

  /** Unsigned 32-bit arithmetic: the result of a `uint` expression. */
  function Wrap(x: int): Word {
    x % WORD_MOD
  }

  lemma WrapSmall(x: int)
    requires 0 <= x < WORD_MOD
    ensures Wrap(x) == x
  {
  }

  /** The bytes of a word as they lie in memory (little-endian). */
  function WordBytes(w: Word): (b: seq<byte>)
    ensures |b| == I_WIDTH
  {
    [(w % 256) as byte, ((w / 256) % 256) as byte, ((w / 0x1_0000) % 256) as byte, (w / 0x100_0000) as byte]
  }

  /** The word whose memory image is `b`. */
  function WordOf(b: seq<byte>): Word
    requires |b| == I_WIDTH
  {
    b[0] as int + 256 * b[1] as int + 0x1_0000 * b[2] as int + 0x100_0000 * b[3] as int
  }

  lemma WordBytesRoundTrip(w: Word)
    ensures WordOf(WordBytes(w)) == w
  {
    var b := WordBytes(w);
    assert w == b[0] as int + 256 * (w / 256);
    assert w / 256 == b[1] as int + 256 * (w / 0x1_0000);
    assert w / 0x1_0000 == b[2] as int + 256 * (w / 0x100_0000);
  }

  lemma WordOfRoundTrip(b: seq<byte>)
    requires |b| == I_WIDTH
    ensures WordBytes(WordOf(b)) == b
  {
    var w := WordOf(b);
    var b0, b1, b2, b3 := b[0] as int, b[1] as int, b[2] as int, b[3] as int;
    Digits(w, 256, b0, b1 + 256 * b2 + 0x1_0000 * b3);
    Digits(w, 0x1_0000, b0 + 256 * b1, b2 + 256 * b3);
    Digits(w, 0x100_0000, b0 + 256 * b1 + 0x1_0000 * b2, b3);
    Digits(b1 + 256 * b2 + 0x1_0000 * b3, 256, b1, b2 + 256 * b3);
    Digits(b2 + 256 * b3, 256, b2, b3);
  }

  /** `x` written as `lo + base * hi` with `lo` a digit splits into them
      by division and remainder. */
  lemma Digits(x: int, base: int, lo: int, hi: int)
    requires base > 0 && 0 <= lo < base && x == lo + base * hi
    ensures x / base == hi && x % base == lo
  {
    var q, r := x / base, x % base;
    assert x == base * q + r && 0 <= r < base;
    assert base * (q - hi) == lo - r;
    assert base * (hi - q) == r - lo;
    MulAtLeast(base, q - hi);
    MulAtLeast(base, hi - q);
  }

  /** A positive multiple of `base` is at least `base`. */
  lemma MulAtLeast(base: int, k: int)
    requires base > 0
    ensures k >= 1 ==> base * k >= base
  {
    if k >= 1 {
      assert base * k == base * (k - 1) + base;
    }
  }

  /** `s` holds no NUL byte: it can be the content of a C string. */
  predicate NulFree(s: seq<byte>) {
    forall i :: 0 <= i < |s| ==> s[i] != 0
  }

  /** Index of the first NUL in `s` at or after `i`, or `|s|` if there is none. */
  function NulFrom(s: seq<byte>, i: nat): (j: nat)
    requires i <= |s|
    ensures i <= j <= |s|
    ensures j < |s| ==> s[j] == 0
    ensures forall k :: i <= k < j ==> s[k] != 0
    decreases |s| - i
  {
    if i == |s| || s[i] == 0 then i else NulFrom(s, i + 1)
  }

  /** The buffer holds a NUL-terminated string. */
  predicate Terminated(s: seq<byte>) {
    NulFrom(s, 0) < |s|
  }

  /** The C string held in `s`: the bytes before its first NUL. */
  function CStr(s: seq<byte>): (r: seq<byte>)
    ensures NulFree(r) && |r| <= |s| && r == s[..|r|]
    ensures |r| < |s| ==> s[|r|] == 0
  {
    s[..NulFrom(s, 0)]
  }

  /** A NUL-free string followed by its terminator is read back as itself. */
  lemma {:induction false} CStrOfTerminated(n: seq<byte>, rest: seq<byte>)
    requires NulFree(n)
    ensures CStr(n + [0] + rest) == n
  {
    var s := n + [0] + rest;
    NulFromSkips(s, 0, |n|);
  }

  lemma {:induction false} NulFromSkips(s: seq<byte>, i: nat, j: nat)
    requires i <= j < |s| && s[j] == 0
    requires forall k :: i <= k < j ==> s[k] != 0
    ensures NulFrom(s, i) == j
    decreases j - i
  {
    if i < j {
      NulFromSkips(s, i + 1, j);
    }
  }
}
