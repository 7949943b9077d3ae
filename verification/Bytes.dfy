/** Byte strings, C integer widths, and the effect of writing a run of bytes into a file. */
module Bytes {

  newtype byte = x: int | 0 <= x < 256

  const CR: byte := 13
  const LF: byte := 10

  /** Number of distinct values of an `apr_size_t`. */
  const SIZE_MODULUS: int := 0x1_0000_0000_0000_0000

  function Min(a: int, b: int): int { if a <= b then a else b }

  function Max(a: int, b: int): int { if a <= b then b else a }

  /** The value an `int` holds after being assigned `n`: the low 32 bits, read as signed. */
  function CInt(n: int): (r: int)
    ensures -0x8000_0000 <= r < 0x8000_0000
    ensures -0x8000_0000 <= n < 0x8000_0000 <==> r == n
    ensures 0 <= n ==> r <= n
    ensures (n - r) % 0x1_0000_0000 == 0
  {
    var low := n % 0x1_0000_0000;
    if low < 0x8000_0000 then low else low - 0x1_0000_0000
  }

  /** File contents `d` after the bytes `s` are written at offset `at`; a gap reads as zeros. */
  function Overwrite(d: seq<byte>, at: nat, s: seq<byte>): seq<byte>
    decreases |s|
  {
    if s == [] then d
    else Overwrite(Put(d, at, s[0]), at + 1, s[1..])
  }

  /** One byte written at offset `at`. */
  function Put(d: seq<byte>, at: nat, b: byte): seq<byte> {
    if at < |d| then d[at := b] else d + seq(at - |d|, _ => 0) + [b]
  }

  /** Which byte is where after a write. */
  lemma {:induction false} OverwriteAt(d: seq<byte>, at: nat, s: seq<byte>)
    ensures var r := Overwrite(d, at, s);
      && |r| == (if s == [] then |d| else Max(|d|, at + |s|))
      && forall i :: 0 <= i < |r| ==>
           r[i] == if at <= i < at + |s| then s[i - at] else if i < |d| then d[i] else 0
    decreases |s|
  {
    if s != [] { OverwriteAt(Put(d, at, s[0]), at + 1, s[1..]); }
  }

  /** Writing `a` and then `b` right behind it is one write of both. */
  lemma {:induction false} OverwriteConcat(d: seq<byte>, at: nat, a: seq<byte>, b: seq<byte>)
    ensures Overwrite(Overwrite(d, at, a), at + |a|, b) == Overwrite(d, at, a + b)
    decreases |a|
  {
    if a == [] {
      assert a + b == b;
    } else {
      assert (a + b)[1..] == a[1..] + b;
      OverwriteConcat(Put(d, at, a[0]), at + 1, a[1..], b);
    }
  }

  lemma OverwriteNothing(d: seq<byte>, at: nat)
    ensures Overwrite(d, at, []) == d
  {
  }

  /** A prefix of `data` and then the next `n` bytes: one write, and an append moves the end by as much. */
  lemma OverwriteStep(d: seq<byte>, at: nat, data: seq<byte>, done: nat, n: nat)
    requires done + n <= |data|
    ensures Overwrite(Overwrite(d, at, data[..done]), at + done, data[done..][..n])
         == Overwrite(d, at, data[..done + n])
    ensures |Overwrite(d, |d|, data[done..][..n])| == |d| + n
  {
    assert data[..done] + data[done..][..n] == data[..done + n];
    OverwriteConcat(d, at, data[..done], data[done..][..n]);
    OverwriteAt(d, |d|, data[done..][..n]);
  }

  /** `after` is `before` with the `n` bytes of `src` from `from` on copied to `at`; nothing else moved. */
  ghost predicate Copied(before: seq<byte>, after: seq<byte>, at: nat, src: seq<byte>, from: nat, n: nat) {
    && |after| == |before|
    && at + n <= |before|
    && (0 < n ==> from + n <= |src|)
    && (forall i :: 0 <= i < |after| ==> after[i] == if at <= i < at + n then src[i - at + from] else before[i])
  }

  lemma CopiedConcat(a: seq<byte>, b: seq<byte>, c: seq<byte>, at: nat, src: seq<byte>, from: nat, m: nat, n: nat)
    requires Copied(a, b, at, src, from, m) && Copied(b, c, at + m, src, from + m, n)
    ensures Copied(a, c, at, src, from, m + n)
  {
  }

  lemma CopiedSlice(before: seq<byte>, after: seq<byte>, at: nat, src: seq<byte>, from: nat, n: nat)
    requires Copied(before, after, at, src, from, n) && from + n <= |src|
    ensures after[at..at + n] == src[from..from + n]
    ensures after[..at] == before[..at] && after[at + n..] == before[at + n..]
  {
  }

  lemma SliceJoin(s: seq<byte>, a: nat, b: nat, c: nat)
    requires a <= b <= c <= |s|
    ensures s[a..b] + s[b..c] == s[a..c]
  {
  }
}
