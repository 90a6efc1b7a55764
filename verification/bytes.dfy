/** Byte-level vocabulary shared by every stage: fixed-width unsigned integers,
    Python's clamping slice, little-endian fields, and the write primitive of a
    seekable output file. */
module Bytes {

  type u8 = x: int | 0 <= x < 0x100
  type u16 = x: int | 0 <= x < 0x1_0000
  type u32 = x: int | 0 <= x < 0x1_0000_0000

  function Min(a: int, b: int): int { if a <= b then a else b }

  function Max(a: int, b: int): int { if a >= b then a else b }

  /** `s[lo:hi]` in Python for non-negative bounds: both bounds are clamped to the
      length of `s`, and the slice is empty when they cross. */
  function Slice<T>(s: seq<T>, lo: nat, hi: nat): (r: seq<T>)
    ensures |r| == Max(0, Min(hi, |s|) - lo)
    ensures forall k :: 0 <= k < |r| ==> r[k] == s[lo + k]
  {
    if lo < Min(hi, |s|) then s[lo..Min(hi, |s|)] else []
  }

  /** Each element is smaller than every later one. */
  predicate StrictlyIncreasing(s: seq<int>) {
    forall i, j :: 0 <= i < j < |s| ==> s[i] < s[j]
  }

  /** The elements of a sequence, as a set. */
  function Elems<T>(s: seq<T>): set<T> {
    set x | x in s
  }

  /** Unsigned little-endian 16-bit field at `off` (construct's `Int16ul`). */
  function Le16(b: seq<u8>, off: nat): u16
    requires off + 2 <= |b|
  {
    b[off] as int + 0x100 * b[off + 1] as int
  }

  /** Unsigned little-endian 32-bit field at `off` (construct's `Int32ul`, struct's `<I`). */
  function Le32(b: seq<u8>, off: nat): u32
    requires off + 4 <= |b|
  {
    b[off] as int + 0x100 * (b[off + 1] as int + 0x100 * (b[off + 2] as int + 0x100 * b[off + 3] as int))
  }

  function ToLe16(v: u16): (r: seq<u8>)
    ensures |r| == 2 && Le16(r, 0) == v
  {
    [v % 0x100, v / 0x100]
  }

  function ToLe32(v: u32): (r: seq<u8>)
    ensures |r| == 4 && Le32(r, 0) == v
  {
    [v % 0x100, (v / 0x100) % 0x100, (v / 0x1_0000) % 0x100, v / 0x100_0000]
  }

  /** Reading a 16-bit field and writing it back gives the same two bytes. */
  lemma Le16Inverse(b: seq<u8>, off: nat)
    requires off + 2 <= |b|
    ensures ToLe16(Le16(b, off)) == b[off..off + 2]
  {
  }

  /** Reading a 32-bit field and writing it back gives the same four bytes. */
  lemma Le32Inverse(b: seq<u8>, off: nat)
    requires off + 4 <= |b|
    ensures ToLe32(Le32(b, off)) == b[off..off + 4]
  {
    var hi := b[off + 2] as int + 0x100 * b[off + 3] as int;
    var mid := b[off + 1] as int + 0x100 * hi;
    var v := Le32(b, off);
    DigitSplit(b[off], mid);
    DigitSplit(b[off + 1], hi);
    DigitSplit(b[off + 2], b[off + 3]);
    var low2 := b[off] as int + 0x100 * b[off + 1] as int;
    assert v == low2 + 0x1_0000 * hi;
    assert v == low2 + 0x1_0000 * b[off + 2] as int + 0x100_0000 * b[off + 3] as int;
  }

  /** One base-256 digit split: `d + 256 * q` has remainder `d` and quotient `q`. */
  lemma DigitSplit(d: int, q: int)
    requires 0 <= d < 0x100
    ensures (d + 0x100 * q) % 0x100 == d && (d + 0x100 * q) / 0x100 == q
  {
  }

  /** `bytes(n)`: n zero bytes. */
  function Zeros(n: nat): (r: seq<u8>)
    ensures |r| == n
    ensures forall i :: 0 <= i < n ==> r[i] == 0
  {
    seq(n, _ => 0)
  }

  /** `f.seek(pos); f.write(payload)` on a file whose contents are `out`: the payload
      replaces the bytes it lands on, a write that runs past the end extends the file,
      a seek past the end leaves a zero-filled gap, and nothing is ever truncated. */
  function WriteAt(out: seq<u8>, pos: nat, payload: seq<u8>): (r: seq<u8>)
    ensures |r| == Max(|out|, pos + |payload|)
    ensures forall i :: pos <= i < pos + |payload| ==> r[i] == payload[i - pos]
    ensures forall i :: 0 <= i < |out| && !(pos <= i < pos + |payload|) ==> r[i] == out[i]
    ensures forall i :: |out| <= i < |r| && !(pos <= i < pos + |payload|) ==> r[i] == 0
  {
    var head := if pos <= |out| then out[..pos] else out + Zeros(pos - |out|);
    var tail := if pos + |payload| < |out| then out[pos + |payload|..] else [];
    head + payload + tail
  }
}
