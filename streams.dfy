/**
 * The byte stream the level codec reads from and writes to. The stream
 * implementation (Stream.cpp) is not part of this model: what is here is a
 * stand-in with the interface the codec uses (tell, seek, fixed-width
 * little-endian transfers, run-length tile transfer, framed strings with an
 * optional obfuscation), each specified by a pure function so that the
 * codec's own contracts can be stated over bytes.
 */
module Streams {
  import opened Bytes

  // ---------------------------------------------------------------------
  // Run-length coding of a tile layer (stand-in; the real coder is not part of this model).
  // A byte other than RunMarker is one tile; RunMarker, count, tile is a run.
  // ---------------------------------------------------------------------

  const RunMarker: byte := 0xFF

  function Repeat(t: byte, k: nat): (r: seq<byte>)
    ensures |r| == k && forall i :: 0 <= i < k ==> r[i] == t
  {
    if k == 0 then [] else [t] + Repeat(t, k - 1)
  }

  /** Decodes exactly `n` tiles starting at `p`. */
  function RleDecode(d: seq<byte>, p: nat, n: nat): (r: Result<Read<seq<byte>>>)
    requires p <= |d|
    ensures r.Success? ==> |r.value.val| == n && p <= r.value.next <= |d|
    ensures r.Failure? ==> r.error == EndOfStream || r.error == InvalidRun
    decreases |d| - p
  {
    if n == 0 then Success(Read([], p))
    else if p >= |d| then Failure(EndOfStream)
    else if d[p] != RunMarker then
      var rest :- RleDecode(d, p + 1, n - 1);
      Success(Read([d[p]] + rest.val, rest.next))
    else if p + 3 > |d| then Failure(EndOfStream)
    else if d[p + 1] > n then Failure(InvalidRun)
    else
      var rest :- RleDecode(d, p + 3, n - d[p + 1]);
      Success(Read(Repeat(d[p + 2], d[p + 1]) + rest.val, rest.next))
  }

  /** Length of the run of equal tiles at the head of `t`, at most 255. */
  function RunFrom(t: seq<byte>, k: nat): (r: nat)
    requires 1 <= k <= |t| && k <= 0xFF
    requires forall i :: 0 <= i < k ==> t[i] == t[0]
    ensures k <= r <= |t| && r <= 0xFF
    ensures forall i :: 0 <= i < r ==> t[i] == t[0]
    decreases |t| - k
  {
    if k < |t| && k < 0xFF && t[k] == t[0] then RunFrom(t, k + 1) else k
  }

  function RleEncode(t: seq<byte>): (r: seq<byte>)
    ensures |r| <= 3 * |t|
    decreases |t|
  {
    if |t| == 0 then []
    else
      var k := RunFrom(t, 1);
      [RunMarker, k, t[0]] + RleEncode(t[k..])
  }

  /** A run record followed by a decodable remainder decodes to the run and then the remainder. */
  lemma RunStep(d: seq<byte>, p: nat, n: nat, k: byte, tile: byte, rest: seq<byte>, q: nat)
    requires p + 3 <= |d| && d[p] == RunMarker && d[p + 1] == k && d[p + 2] == tile
    requires 0 < n && k <= n
    requires RleDecode(d, p + 3, n - k) == Success(Read(rest, q))
    ensures RleDecode(d, p, n) == Success(Read(Repeat(tile, k) + rest, q))
  {
  }

  /** `enc` is the run-length encoder, as an opaque function of the layer. */
  ghost predicate IsRleEncoder(enc: seq<byte> -> seq<byte>) {
    forall t {:trigger RleEncode(t)} :: enc(t) == RleEncode(t)
  }

  /** The first record of an encoding is the run of `t`'s leading tile; the rest encodes what follows. */
  lemma RunHead(d: seq<byte>, p: nat, t: seq<byte>, k: nat, enc: seq<byte> -> seq<byte>)
    requires IsRleEncoder(enc) && |t| > 0 && Holds(d, p, enc(t)) && k == RunFrom(t, 1)
    ensures p + 3 <= |d| && d[p] == RunMarker && d[p + 1] == k && d[p + 2] == t[0]
    ensures Holds(d, p + 3, enc(t[k..])) && |enc(t)| == 3 + |enc(t[k..])|
  {
    var run, e := [RunMarker, k, t[0]], RleEncode(t[k..]);
    assert enc(t) == RleEncode(t) == run + e;
    assert enc(t[k..]) == e;
    HoldsSplit(d, p, run, e);
    assert d[p] == run[0] && d[p + 1] == run[1] && d[p + 2] == run[2];
  }

  /** The leading run and what follows it make up the whole layer again. */
  lemma RunCovers(t: seq<byte>, k: nat)
    requires |t| > 0 && k == RunFrom(t, 1)
    ensures Repeat(t[0], k) + t[k..] == t
  {
    var r := Repeat(t[0], k) + t[k..];
    assert |r| == |t|;
    forall i | 0 <= i < |t| ensures r[i] == t[i] {
      if i < k {
        assert r[i] == Repeat(t[0], k)[i];
      } else {
        assert r[i] == t[k..][i - k];
      }
    }
  }

  lemma RleRoundTrip(d: seq<byte>, p: nat, t: seq<byte>, e: nat)
    requires Holds(d, p, RleEncode(t)) && e == p + |RleEncode(t)|
    ensures RleDecode(d, p, |t|) == Success(Read(t, e))
  {
    RleDecodes(d, p, t, RleEncode, e);
  }

  /** RleRoundTrip, with the encoder seen as `enc` and the end of the encoding as `e`. */
  lemma {:induction false} RleDecodes(d: seq<byte>, p: nat, t: seq<byte>, enc: seq<byte> -> seq<byte>, e: nat)
    requires IsRleEncoder(enc) && Holds(d, p, enc(t)) && e == p + |enc(t)|
    ensures RleDecode(d, p, |t|) == Success(Read(t, e))
    decreases |t|
  {
    if |t| == 0 {
      assert enc(t) == RleEncode(t) == [];
    } else {
      var k := RunFrom(t, 1);
      var rest := t[k..];
      RunHead(d, p, t, k, enc);
      RleDecodes(d, p + 3, rest, enc, e);
      LeadingRun(d, p, t, k, rest, e);
    }
  }

  /** A run record for the leading run of `t`, followed by the encoding of the rest, decodes to `t`. */
  lemma LeadingRun(d: seq<byte>, p: nat, t: seq<byte>, k: nat, rest: seq<byte>, q: nat)
    requires |t| > 0 && k == RunFrom(t, 1) && rest == t[k..]
    requires p + 3 <= |d| && d[p] == RunMarker && d[p + 1] == k && d[p + 2] == t[0]
    requires RleDecode(d, p + 3, |rest|) == Success(Read(rest, q))
    ensures RleDecode(d, p, |t|) == Success(Read(t, q))
  {
    assert |rest| == |t| - k;
    RunStep(d, p, |t|, k, t[0], rest, q);
    RunCovers(t, k);
  }

  // ---------------------------------------------------------------------
  // Framed strings: the characters followed by a NUL byte; in obfuscated
  // mode (used for passwords) each character byte is XORed with 0x99.
  // ---------------------------------------------------------------------

  /** A 4-bit value XOR 9 (bits 3 and 0 flipped). */
  function Xor9(n: int): (r: int)
    requires 0 <= n < 16
    ensures 0 <= r < 16
  {
    var a := if n < 8 then n + 8 else n - 8;
    if a % 2 == 0 then a + 1 else a - 1
  }

  /** In obfuscated mode a byte is XORed with 0x99, one nibble at a time. */
  function Obfuscate(b: byte, obf: bool): byte {
    if obf then 16 * Xor9(b / 16) + Xor9(b % 16) else b
  }

  lemma ObfuscateInvolution(b: byte, obf: bool)
    ensures Obfuscate(Obfuscate(b, obf), obf) == b
  {
    if obf {
      var h, l := Xor9(b / 16), Xor9(b % 16);
      assert (16 * h + l) / 16 == h && (16 * h + l) % 16 == l;
      assert Xor9(h) == b / 16 && Xor9(l) == b % 16;
    }
  }

  /** The byte a character is stored as (a `char` converted to `unsigned char`). */
  function CharByte(c: char): byte { Low8(c as int) }

  function StringBytes(s: string, obf: bool): (r: seq<byte>)
    ensures |r| == |s| + 1 && r[|s|] == 0
    ensures forall i :: 0 <= i < |s| ==> r[i] == Obfuscate(CharByte(s[i]), obf)
  {
    seq(|s|, i requires 0 <= i < |s| => Obfuscate(CharByte(s[i]), obf)) + [0]
  }

  /** The characters before the first NUL byte. */
  function DecodeChars(b: seq<byte>, obf: bool): (r: string)
    ensures |r| <= |b|
  {
    if |b| == 0 || b[0] == 0 then [] else [Obfuscate(b[0], obf) as char] + DecodeChars(b[1..], obf)
  }

  /** Reads a string field of exactly `n` bytes. */
  function GetString(d: seq<byte>, p: nat, n: nat, obf: bool): (r: Result<Read<string>>)
    ensures r.Success? <==> p + n <= |d|
    ensures r.Success? ==> r.value.next == p + n && |r.value.val| <= n
    ensures r.Failure? ==> r.error == EndOfStream
  {
    if p + n <= |d| then Success(Read(DecodeChars(d[p..p + n], obf), p + n)) else Failure(EndOfStream)
  }

  /** Every character fits in a byte and is not stored as the NUL terminator. */
  predicate Storable(s: string, obf: bool) {
    forall i :: 0 <= i < |s| ==> s[i] as int < 0x100 && Obfuscate(CharByte(s[i]), obf) != 0
  }

  lemma {:induction false} DecodeCharsInverts(s: string, obf: bool)
    requires Storable(s, obf)
    ensures DecodeChars(StringBytes(s, obf), obf) == s
    decreases |s|
  {
    if |s| > 0 {
      var b := StringBytes(s, obf);
      ObfuscateInvolution(CharByte(s[0]), obf);
      assert b[0] == Obfuscate(CharByte(s[0]), obf);
      assert Obfuscate(b[0], obf) as char == s[0];
      assert b[1..] == StringBytes(s[1..], obf);
      DecodeCharsInverts(s[1..], obf);
    }
  }

  lemma StringRoundTrip(d: seq<byte>, p: nat, s: string, obf: bool)
    requires Storable(s, obf) && Holds(d, p, StringBytes(s, obf))
    ensures GetString(d, p, |s| + 1, obf) == Success(Read(s, p + |s| + 1))
  {
    DecodeCharsInverts(s, obf);
  }

  // ---------------------------------------------------------------------
  // The stream object.
  // ---------------------------------------------------------------------

  /** `r` carries what the specification function `g` reads, and the position moved accordingly. */
  ghost predicate Delivers<T>(r: Result<T>, g: Result<Read<T>>, pos: nat, pos': nat) {
    match g
    case Success(rd) => r == Success(rd.val) && pos' == rd.next
    case Failure(e) => r == Failure(e) && pos' == pos
  }

  class Stream {
    var data: seq<byte>
    var pos: nat

    ghost predicate Valid()
      reads this
    {
      pos <= |data|
    }

    constructor (contents: seq<byte>)
      ensures Valid() && data == contents && pos == 0
    {
      data, pos := contents, 0;
    }

    function Tell(): nat
      reads this
    {
      pos
    }

    method Seek(p: nat)
      requires p <= |data|
      modifies this
      ensures Valid() && data == old(data) && pos == p
    {
      pos := p;
    }

    method Read8() returns (r: Result<byte>)
      requires Valid()
      modifies this
      ensures Valid() && data == old(data)
      ensures Delivers(r, Get8(data, old(pos)), old(pos), pos)
    {
      var g := Get8(data, pos);
      if g.Success? {
        r, pos := Success(g.value.val), g.value.next;
      } else {
        r := Failure(g.error);
      }
    }

    method Read16() returns (r: Result<u16>)
      requires Valid()
      modifies this
      ensures Valid() && data == old(data)
      ensures Delivers(r, Get16(data, old(pos)), old(pos), pos)
    {
      var g := Get16(data, pos);
      if g.Success? {
        r, pos := Success(g.value.val), g.value.next;
      } else {
        r := Failure(g.error);
      }
    }

    method Read32() returns (r: Result<u32>)
      requires Valid()
      modifies this
      ensures Valid() && data == old(data)
      ensures Delivers(r, Get32(data, old(pos)), old(pos), pos)
    {
      var g := Get32(data, pos);
      if g.Success? {
        r, pos := Success(g.value.val), g.value.next;
      } else {
        r := Failure(g.error);
      }
    }

    method Write(b: seq<byte>)
      requires Valid()
      modifies this
      ensures Valid() && data == Splice(old(data), old(pos), b) && pos == old(pos) + |b|
    {
      data, pos := Splice(data, pos, b), pos + |b|;
    }

    method Write8(v: int)
      requires Valid()
      modifies this
      ensures Valid() && data == Splice(old(data), old(pos), [Low8(v)]) && pos == old(pos) + 1
    {
      Write([Low8(v)]);
    }

    method Write16(v: int)
      requires Valid()
      modifies this
      ensures Valid() && data == Splice(old(data), old(pos), LE16(v)) && pos == old(pos) + 2
    {
      Write(LE16(v));
    }

    method Write32(v: int)
      requires Valid()
      modifies this
      ensures Valid() && data == Splice(old(data), old(pos), LE32(v)) && pos == old(pos) + 4
    {
      Write(LE32(v));
    }

    /** Fills `dst` with run-length decoded tiles; answers the number of bytes consumed. */
    method ReadRle(dst: array<byte>) returns (r: Result<nat>)
      requires Valid()
      modifies this, dst
      ensures Valid() && data == old(data)
      ensures var g := RleDecode(data, old(pos), dst.Length);
        match g
        case Success(rd) => r == Success(rd.next - old(pos)) && pos == rd.next && dst[..] == rd.val
        case Failure(e) => r == Failure(e) && pos == old(pos) && unchanged(dst)
    {
      var g := RleDecode(data, pos, dst.Length);
      if g.Success? {
        var tiles := g.value.val;
        forall i | 0 <= i < dst.Length {
          dst[i] := tiles[i];
        }
        r, pos := Success(g.value.next - pos), g.value.next;
      } else {
        r := Failure(g.error);
      }
    }

    /** Writes the run-length coding of `src`, whose tiles are `t`; answers the number of bytes written. */
    method WriteRle(src: array<byte>, ghost t: seq<byte>) returns (n: nat)
      requires Valid() && src[..] == t
      modifies this
      ensures Valid() && data == Splice(old(data), old(pos), RleEncode(t))
      ensures pos == old(pos) + n && n == |RleEncode(t)|
    {
      var b := RleEncode(src[..]);
      Write(b);
      n := |b|;
    }

    method ReadString(n: nat, obf: bool) returns (r: Result<string>)
      requires Valid()
      modifies this
      ensures Valid() && data == old(data)
      ensures Delivers(r, GetString(data, old(pos), n, obf), old(pos), pos)
    {
      var g := GetString(data, pos, n, obf);
      if g.Success? {
        r, pos := Success(g.value.val), g.value.next;
      } else {
        r := Failure(g.error);
      }
    }

    method WriteString(s: string, obf: bool) returns (n: nat)
      requires Valid()
      modifies this
      ensures Valid() && data == Splice(old(data), old(pos), StringBytes(s, obf))
      ensures pos == old(pos) + n && n == |s| + 1
    {
      Write(StringBytes(s, obf));
      n := |s| + 1;
    }
  }
}
