/**
 * Byte-level vocabulary shared by the codec: fixed-width unsigned integers,
 * the little-endian transfers of the byte stream, the error conditions the
 * codec reports, and the sequence "splice" that a positional write performs.
 */
module Bytes {

  type byte = x: int | 0 <= x < 0x100
  type u16 = x: int | 0 <= x < 0x1_0000
  type u32 = x: int | 0 <= x < 0x1_0000_0000

  /** Proof aid only: carries `Gives` across equal arguments, which keeps callers' proofs cheap. */
  lemma GivesTransfer<T>(r1: Result<Read<T>>, r2: Result<Read<T>>, v1: T, v2: T, n1: nat, n2: nat)
    requires r1 == r2 && v1 == v2 && n1 == n2 && Gives(r2, v2, n2)
    ensures Gives(r1, v1, n1)
  {
  }

  /** The conditions under which a read aborts (one exception type in the source, one message each). */
  datatype IOError =
    | EndOfStream          // the stream holds fewer bytes than requested
    | InvalidRun           // a run-length record would overfill the tile layer
    | InvalidMapMarker     // "Invalid map data field"
    | SizeMismatch         // "Corrupt map data"
    | TruncatedRecord      // "Invalid or corrupt level data"
    | InvalidFieldSize     // "Invalid trap/clone/move list field size"
    | UnrecognizedField    // "Invalid / unrecognized field type"
    | ChecksumMismatch     // "Invalid level checksum"
    | CorruptClipboardData // "Corrupt level data"
    | InvalidHeader        // "Invalid levelset header"

  datatype Result<+T> = Success(value: T) | Failure(error: IOError) {
    predicate IsFailure() { Failure? }
    function PropagateFailure<U>(): Result<U> requires Failure? { Failure(error) }
    function Extract(): T requires Success? { value }
  }

  /** A value read from a byte sequence together with the position just after it. */
  datatype Read<+T> = Read(val: T, next: nat)

  /** `r` is a successful read of `val` that stopped at `next`. */
  predicate Gives<T(==)>(r: Result<Read<T>>, val: T, next: nat) {
    r.Success? && r.value.val == val && r.value.next == next
  }

  /** What C++ does when an integer is converted to an unsigned 8/16/32-bit type. */
  function Low8(v: int): byte { v % 0x100 }
  function Low16(v: int): u16 { v % 0x1_0000 }
  function Low32(v: int): u32 { v % 0x1_0000_0000 }

  /** Proof aid only: a value that fits a byte is unchanged by truncation, stated once to keep proofs cheap. */
  lemma Low8Keeps(v: int)
    requires 0 <= v < 0x100
    ensures Low8(v) == v
  {
  }

  /** Little-endian encodings of the low 16 and 32 bits of `v`. */
  function LE16(v: int): (b: seq<byte>)
    ensures |b| == 2
  {
    var w := Low16(v);
    [w % 0x100, w / 0x100]
  }

  function LE32(v: int): (b: seq<byte>)
    ensures |b| == 4
  {
    var w := Low32(v);
    var q1 := w / 0x100;
    var q2 := q1 / 0x100;
    [w % 0x100, q1 % 0x100, q2 % 0x100, q2 / 0x100]
  }

  function Get8(d: seq<byte>, p: nat): (r: Result<Read<byte>>)
    ensures r.Success? <==> p < |d|
    ensures r.Success? ==> r.value.next == p + 1
    ensures r.Failure? ==> r.error == EndOfStream
  {
    if p < |d| then Success(Read(d[p], p + 1)) else Failure(EndOfStream)
  }

  function Get16(d: seq<byte>, p: nat): (r: Result<Read<u16>>)
    ensures r.Success? <==> p + 2 <= |d|
    ensures r.Success? ==> r.value.next == p + 2
    ensures r.Failure? ==> r.error == EndOfStream
  {
    if p + 2 <= |d| then Success(Read(d[p] as int + 0x100 * d[p + 1] as int, p + 2)) else Failure(EndOfStream)
  }

  function Get32(d: seq<byte>, p: nat): (r: Result<Read<u32>>)
    ensures r.Success? <==> p + 4 <= |d|
    ensures r.Success? ==> r.value.next == p + 4
    ensures r.Failure? ==> r.error == EndOfStream
  {
    if p + 4 <= |d| then
      Success(Read(d[p] as int + 0x100 * d[p + 1] as int + 0x1_0000 * d[p + 2] as int
                   + 0x100_0000 * d[p + 3] as int, p + 4))
    else Failure(EndOfStream)
  }

  /** `d[p..p + |b|]` is exactly `b`. */
  predicate Holds(d: seq<byte>, p: nat, b: seq<byte>) {
    p + |b| <= |d| && d[p..p + |b|] == b
  }

  lemma Get16Inverts(d: seq<byte>, p: nat, v: int)
    requires Holds(d, p, LE16(v))
    ensures Get16(d, p) == Success(Read(Low16(v), p + 2))
  {
    assert d[p] == LE16(v)[0] && d[p + 1] == LE16(v)[1];
  }

  /** A 16-bit value written little-endian reads back as itself. */
  lemma Get16Word(d: seq<byte>, p: nat, v: int)
    requires 0 <= v < 0x1_0000 && Holds(d, p, LE16(v))
    ensures Get16(d, p) == Success(Read(v, p + 2))
  {
    Get16Inverts(d, p, v);
  }

  lemma Get8Inverts(d: seq<byte>, p: nat, v: int)
    requires Holds(d, p, [Low8(v)])
    ensures Get8(d, p) == Success(Read(Low8(v), p + 1))
  {
    assert d[p] == [Low8(v)][0];
  }

  lemma Get32Inverts(d: seq<byte>, p: nat, v: int)
    requires Holds(d, p, LE32(v))
    ensures Get32(d, p) == Success(Read(Low32(v), p + 4))
  {
    var w := Low32(v);
    var q1 := w / 0x100;
    var q2 := q1 / 0x100;
    assert d[p] == w % 0x100 && d[p + 1] == q1 % 0x100;
    assert d[p + 2] == q2 % 0x100 && d[p + 3] == q2 / 0x100;
    assert w == w % 0x100 + 0x100 * q1;
    assert q1 == q1 % 0x100 + 0x100 * q2;
    assert q2 == q2 % 0x100 + 0x100 * (q2 / 0x100);
  }

  /** A 32-bit value written little-endian reads back as itself. */
  lemma Get32Word(d: seq<byte>, p: nat, v: int)
    requires 0 <= v < 0x1_0000_0000 && Holds(d, p, LE32(v))
    ensures Get32(d, p) == Success(Read(v, p + 4))
  {
    Get32Inverts(d, p, v);
  }

  /** A window holding `a + b` holds `a` and then `b`. */
  lemma HoldsSplit(d: seq<byte>, p: nat, a: seq<byte>, b: seq<byte>)
    requires Holds(d, p, a + b)
    ensures Holds(d, p, a) && Holds(d, p + |a|, b)
  {
    assert d[p..p + |a|] == (a + b)[..|a|];
    assert d[p + |a|..p + |a| + |b|] == (a + b)[|a|..];
  }

  /** A sequence holds its own prefix at position 0. */
  lemma HoldsPrefix(a: seq<byte>, b: seq<byte>)
    ensures Holds(a + b, 0, a)
  {
    assert (a + b)[0..|a|] == a;
  }

  /** Appending bytes at the end keeps every window that was already held. */
  lemma HoldsExtend(d: seq<byte>, p: nat, b: seq<byte>, more: seq<byte>)
    requires Holds(d, p, b)
    ensures Holds(d + more, p, b)
  {
    assert (d + more)[p..p + |b|] == d[p..p + |b|];
  }

  /** A window holding four pieces back to back holds each of them in turn. */
  lemma HoldsSplit4(d: seq<byte>, p: nat, a: seq<byte>, b: seq<byte>, c: seq<byte>, e: seq<byte>)
    requires Holds(d, p, a + b + c + e)
    ensures Holds(d, p, a) && Holds(d, p + |a|, b) && Holds(d, p + |a| + |b|, c) && Holds(d, p + |a| + |b| + |c|, e)
  {
    HoldsSplit(d, p, a + b + c, e);
    HoldsSplit(d, p, a + b, c);
    HoldsSplit(d, p, a, b);
  }

  /** A window holding `all`, which is four pieces back to back, holds each piece where it starts. */
  lemma HoldsPieces(d: seq<byte>, p: nat, all: seq<byte>, a: seq<byte>, b: seq<byte>, c: seq<byte>, e: seq<byte>,
                    pb: nat, pc: nat, pe: nat)
    requires Holds(d, p, all) && all == a + b + c + e
    requires pb == p + |a| && pc == pb + |b| && pe == pc + |c|
    ensures Holds(d, p, a) && Holds(d, pb, b) && Holds(d, pc, c) && Holds(d, pe, e) && |all| == pe - p + |e|
  {
    HoldsSplit4(d, p, a, b, c, e);
  }

  /**
   * The byte sequence after writing `b` at position `p` of `d`: bytes before
   * `p` are kept, `b` overwrites what follows, and the sequence grows when `b`
   * reaches past the end.
   */
  function Splice(d: seq<byte>, p: nat, b: seq<byte>): (r: seq<byte>)
    requires p <= |d|
    ensures |r| == if p + |b| <= |d| then |d| else p + |b|
  {
    d[..p] + b + (if p + |b| < |d| then d[p + |b|..] else [])
  }

  /** A splice holds the written bytes at `p` and keeps the bytes before and after them. */
  lemma SpliceHolds(d: seq<byte>, p: nat, b: seq<byte>)
    requires p <= |d|
    ensures var r := Splice(d, p, b);
      Holds(r, p, b) && r[..p] == d[..p] && forall i :: p + |b| <= i < |d| ==> r[i] == d[i]
  {
  }

  /** Writing nothing leaves the bytes as they are. */
  lemma SpliceNothing(d: seq<byte>, p: nat)
    requires p <= |d|
    ensures Splice(d, p, []) == d
  {
    assert d[..p] + d[p..] == d;
  }

  lemma {:induction false} SpliceAppend(d: seq<byte>, p: nat, a: seq<byte>, b: seq<byte>)
    requires p <= |d|
    ensures Splice(Splice(d, p, a), p + |a|, b) == Splice(d, p, a + b)
  {
    var l, r := Splice(Splice(d, p, a), p + |a|, b), Splice(d, p, a + b);
    assert |l| == |r|;
    forall i | 0 <= i < |l| ensures l[i] == r[i] {
      if i < p {
        assert l[i] == l[..p][i];
        assert r[i] == r[..p][i];
      } else if i < p + |a| {
        assert l[i] == Splice(d, p, a)[i];
        assert Splice(d, p, a)[i] == a[i - p];
        assert r[i] == (a + b)[i - p];
      } else if i < p + |a| + |b| {
        assert l[i] == b[i - p - |a|];
        assert r[i] == (a + b)[i - p];
      }
    }
  }

  /** Writing `e` right after `a` writes `b` when `b` is `a` then `e`. */
  lemma SpliceExtend(d: seq<byte>, p: nat, a: seq<byte>, e: seq<byte>, b: seq<byte>)
    requires p <= |d| && b == a + e
    ensures Splice(Splice(d, p, a), p + |a|, e) == Splice(d, p, b)
  {
    SpliceAppend(d, p, a, e);
  }

  /** Three writes back to back are one write of the three pieces. */
  lemma SpliceAppend3(d: seq<byte>, p: nat, a: seq<byte>, b: seq<byte>, c: seq<byte>)
    requires p <= |d|
    ensures Splice(Splice(Splice(d, p, a), p + |a|, b), p + |a| + |b|, c) == Splice(d, p, a + b + c)
  {
    SpliceAppend(d, p, a, b);
    SpliceAppend(d, p, a + b, c);
  }

  /** Overwriting part of an earlier write is the same as having written the patched bytes. */
  lemma {:induction false} SplicePatch(d: seq<byte>, p: nat, w: seq<byte>, off: nat, c: seq<byte>)
    requires p <= |d| && off + |c| <= |w|
    ensures Splice(Splice(d, p, w), p + off, c) == Splice(d, p, w[..off] + c + w[off + |c|..])
  {
    var w' := w[..off] + c + w[off + |c|..];
    var l, r := Splice(Splice(d, p, w), p + off, c), Splice(d, p, w');
    assert |w'| == |w|;
    assert |l| == |r|;
    forall i | 0 <= i < |l| ensures l[i] == r[i] {
      if i < p {
        assert l[i] == l[..p][i];
        assert r[i] == r[..p][i];
      } else if i < p + off {
        assert l[i] == Splice(d, p, w)[i];
        assert Splice(d, p, w)[i] == w[i - p];
        assert r[i] == w'[i - p];
      } else if i < p + off + |c| {
        assert l[i] == c[i - p - off];
        assert r[i] == w'[i - p];
      } else if i < p + |w| {
        assert l[i] == Splice(d, p, w)[i];
        assert Splice(d, p, w)[i] == w[i - p];
        assert r[i] == w'[i - p];
      }
    }
  }
}
