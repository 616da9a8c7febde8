/** C strings as the queue stores them, and the two string primitives the
    queue relies on: `strcmp` (ordering and equality of payloads) and the
    `memset` + `strncpy` pair that copies a payload out into a caller's
    buffer. */
module CString {

  /** A byte as C's `unsigned char` sees it. */
  type Byte = b: int | 0 <= b < 256

  /** A byte that can occur inside a C string: anything but the NUL terminator. */
  type Char = c: int | 1 <= c < 256 witness 1

  /** The payload of a C string, without its terminating NUL. */
  type Str = seq<Char>

  /** The byte at position `k` of the NUL-terminated string `s`. */
  function ByteAt(s: Str, k: nat): Byte
  {
    if k < |s| then s[k] else 0
  }

  /** `strcmp`: the difference of the first pair of bytes that differ,
      the terminator counting as byte 0. Zero exactly on equal strings. */
  function Strcmp(a: Str, b: Str): (r: int)
    ensures r == 0 <==> a == b
    ensures |a| == 0 ==> r <= 0
    ensures -255 <= r <= 255
  {
    if |a| == 0 || |b| == 0 || a[0] != b[0] then
      ByteAt(a, 0) - ByteAt(b, 0)
    else
      assert a == [a[0]] + a[1..] && b == [b[0]] + b[1..];
      Strcmp(a[1..], b[1..])
  }

  /** The order `q_sort` sorts by: `a` may precede `b` when `strcmp(a, b) <= 0`. */
  predicate Leq(a: Str, b: Str)
  {
    Strcmp(a, b) <= 0
  }

  /** Swapping the arguments of `strcmp` negates the result. */
  lemma {:induction false} StrcmpFlip(a: Str, b: Str)
    ensures Strcmp(b, a) == -Strcmp(a, b)
  {
    if |a| == 0 || |b| == 0 || a[0] != b[0] {
    } else {
      StrcmpFlip(a[1..], b[1..]);
    }
  }

  /** Every two strings are comparable. */
  lemma LeqTotal(a: Str, b: Str)
    ensures Leq(a, b) || Leq(b, a)
  {
    StrcmpFlip(a, b);
  }

  /** `strcmp(a, b) > 0` means `b` strictly precedes `a`. */
  lemma GreaterIsStrict(a: Str, b: Str)
    ensures Strcmp(a, b) > 0 <==> Leq(b, a) && a != b
  {
    StrcmpFlip(a, b);
  }

  /** Strings that precede each other are equal. */
  lemma LeqAntisymmetric(a: Str, b: Str)
    requires Leq(a, b) && Leq(b, a)
    ensures a == b
  {
    StrcmpFlip(a, b);
  }

  /** The byte-wise lexicographic order is transitive. */
  lemma {:induction false} LeqTransitive(a: Str, b: Str, c: Str)
    requires Leq(a, b) && Leq(b, c)
    ensures Leq(a, c)
  {
    if |a| == 0 {
    } else if |b| == 0 {
    } else if |c| == 0 {
    } else if a[0] == b[0] && b[0] == c[0] {
      LeqTransitive(a[1..], b[1..], c[1..]);
    }
  }

  /** The caller's buffer after `memset(sp, 0, n)` followed by
      `strncpy(sp, v, n - 1)`: the first `n - 1` bytes of `v` at most, and
      zeros everywhere else. */
  function CopyOut(v: Str, n: nat): (buf: seq<Byte>)
    requires n >= 1
    ensures |buf| == n
    ensures forall k :: 0 <= k < n ==> buf[k] == (if k < n - 1 then ByteAt(v, k) else 0)
  {
    var m := if |v| < n - 1 then |v| else n - 1;
    var copied: seq<Byte> := v[..m];
    var zeros: seq<Byte> := seq(n - m, _ => 0);
    copied + zeros
  }

  /** The C string a buffer holds: its bytes up to the first NUL. */
  function ReadCString(buf: seq<Byte>): (s: Str)
    ensures |s| <= |buf|
    ensures forall k :: 0 <= k < |s| ==> s[k] == buf[k]
    ensures |s| < |buf| ==> buf[|s|] == 0
  {
    if |buf| == 0 || buf[0] == 0 then [] else [buf[0] as Char] + ReadCString(buf[1..])
  }

  /** Reading the buffer back yields the payload truncated to `n - 1` bytes:
      the copy is always terminated and never overflows. */
  lemma {:induction false} CopyOutReadsBack(v: Str, n: nat)
    requires n >= 1
    ensures ReadCString(CopyOut(v, n)) == v[..if |v| < n - 1 then |v| else n - 1]
  {
    var m := if |v| < n - 1 then |v| else n - 1;
    var buf := CopyOut(v, n);
    var s := ReadCString(buf);
    assert forall k :: 0 <= k < m ==> buf[k] == v[k] != 0;
    assert m < n ==> buf[m] == 0;
    assert |s| == m;
    assert s == v[..m];
  }
}
