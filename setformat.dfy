/**
 * The levelset file as values: the magic numbers a levelset may carry, the
 * renumbering write applies, the byte layout of a whole set and its decoder,
 * the names and passwords given to new levels, positional insert and remove
 * on the level list, and the file-type classification of a header.
 */
module SetFormat {
  import opened Bytes
  import opened LevelFormat
  import opened Records

  /** The four accepted magic numbers: the MS, Lynx, PG and Lynx-PG rule sets. */
  const TypeMS: u32 := 0x0002_AAAC
  const TypeLynx: u32 := 0x0102_AAAC
  const TypePG: u32 := 0x0003_AAAC
  const TypeLynxPG: u32 := 0x0103_AAAC

  predicate KnownMagic(m: int) {
    m == TypeMS || m == TypeLynx || m == TypePG || m == TypeLynxPG
  }

  /** A levelset as a value: its magic and its levels in order. */
  datatype SetValue = SetValue(magic: u32, levels: seq<LevelValue>)

  // ------------------------------------------------------------------
  // Positional insert and remove on the level list.
  // ------------------------------------------------------------------

  /** `x` placed at index `i`; the elements from `i` on move up by one. */
  function Inserted<T>(s: seq<T>, i: nat, x: T): (r: seq<T>)
    requires i <= |s|
    ensures |r| == |s| + 1 && r[i] == x
    ensures forall j :: 0 <= j < i ==> r[j] == s[j]
    ensures forall j :: i <= j < |s| ==> r[j + 1] == s[j]
  {
    s[..i] + [x] + s[i..]
  }

  /** The element at index `i` dropped; the elements after it move down by one. */
  function Removed<T>(s: seq<T>, i: nat): (r: seq<T>)
    requires i < |s|
    ensures |r| == |s| - 1
    ensures forall j :: 0 <= j < i ==> r[j] == s[j]
    ensures forall j :: i <= j < |r| ==> r[j] == s[j + 1]
  {
    s[..i] + s[i + 1..]
  }

  /** Taking back what was inserted restores the list. */
  lemma RemoveInserted<T>(s: seq<T>, i: nat, x: T)
    requires i <= |s|
    ensures Removed(Inserted(s, i, x), i) == s
  {
    var r := Removed(Inserted(s, i, x), i);
    assert forall j :: 0 <= j < |s| ==> r[j] == s[j];
  }

  /** Putting back what was taken restores the list. */
  lemma InsertRemoved<T>(s: seq<T>, i: nat)
    requires i < |s|
    ensures Inserted(Removed(s, i), i, s[i]) == s
  {
    var r := Inserted(Removed(s, i), i, s[i]);
    assert forall j :: 0 <= j < |s| ==> r[j] == s[j];
  }

  // ------------------------------------------------------------------
  // Renumbering and the byte layout of a set.
  // ------------------------------------------------------------------

  /** The levels with the one at index j numbered k + j, as a 16-bit level number holds it. */
  function Renumbered(vs: seq<LevelValue>, k: int): (r: seq<LevelValue>)
    ensures |r| == |vs|
    ensures forall j :: 0 <= j < |vs| ==> r[j] == vs[j].(levelNum := Low16(k + j))
  {
    if vs == [] then [] else [vs[0].(levelNum := Low16(k))] + Renumbered(vs[1..], k + 1)
  }

  /** The record of one level as a levelset stores it: stored mode, with its length word. */
  function StoredRecord(v: LevelValue): seq<byte> {
    EncodeLevel(v, false)
  }

  /** One stored-mode record read into a fresh level. */
  function ReadStored(d: seq<byte>, p: nat): Result<Read<LevelValue>> {
    DecodeLevel(d, p, false, Fresh())
  }

  /** The whole file as write emits it: magic, level count, then every level renumbered from 1. */
  function EncodeSet(sv: SetValue): seq<byte> {
    LE32(sv.magic) + LE16(|sv.levels|) + Concat(Renumbered(sv.levels, 1), StoredRecord)
  }

  /** Levelset::read: the magic (which must be one of the four), the count, then that many levels. */
  function DecodeSet(d: seq<byte>, p: nat): (r: Result<Read<SetValue>>)
    ensures r.Success? ==> KnownMagic(r.value.val.magic)
    ensures Get32(d, p).Success? && !KnownMagic(Get32(d, p).value.val) ==> r == Failure(InvalidHeader)
  {
    var magic :- Get32(d, p);
    if !KnownMagic(magic.val) then Failure(InvalidHeader)
    else
      var count :- Get16(d, magic.next);
      var ls :- ReadMany(d, count.next, count.val, [], ReadStored);
      Success(Read(SetValue(magic.val, ls.val), ls.next))
  }

  /** Every level of `vs` stores and reads back. */
  predicate AllStorable(vs: seq<LevelValue>) {
    forall i :: 0 <= i < |vs| ==> Fits(vs[i])
  }

  /** Renumbering changes no level's storability. */
  lemma RenumberedStorable(vs: seq<LevelValue>, k: int)
    requires AllStorable(vs)
    ensures AllStorable(Renumbered(vs, k))
  {
    var r := Renumbered(vs, k);
    forall i | 0 <= i < |r| ensures Fits(r[i]) {
      assert Fits(vs[i]);
    }
  }

  /** Every stored record in place, of a level that stores, reads back as that level. */
  lemma HeldChained(d: seq<byte>, vs: seq<LevelValue>, cuts: seq<nat>)
    requires AllStorable(vs) && HeldAt(d, vs, StoredRecord, cuts)
    ensures Chained(d, vs, ReadStored, cuts)
  {
    forall i | 0 <= i < |vs| ensures Gives(ReadStored(d, cuts[i]), vs[i], cuts[i + 1]) {
      LevelRoundTrip(d, cuts[i], vs[i], false);
    }
  }

  /** Stored records written back to back read back, in order, as the levels written. */
  lemma LevelsRoundTrip(d: seq<byte>, p: nat, vs: seq<LevelValue>, acc: seq<LevelValue>)
    requires AllStorable(vs) && Holds(d, p, Concat(vs, StoredRecord))
    ensures Gives(ReadMany(d, p, |vs|, acc, ReadStored), acc + vs, p + |Concat(vs, StoredRecord)|)
  {
    var cuts := Cuts(p, vs, StoredRecord);
    ConcatHeld(d, p, vs, StoredRecord);
    HeldChained(d, vs, cuts);
    ChainedMany(d, vs, ReadStored, cuts, acc);
  }

  /** `r` is a successful read of the set `sv` that stopped at `next`. */
  predicate SetRead(r: Result<Read<SetValue>>, sv: SetValue, next: nat) {
    r.Success? && r.value.val == sv && r.value.next == next
  }

  /** The three parts of a written set: magic, count and records. */
  lemma SetSplit(d: seq<byte>, p: nat, sv: SetValue)
    requires Holds(d, p, EncodeSet(sv))
    ensures Holds(d, p, LE32(sv.magic)) && Holds(d, p + 4, LE16(|sv.levels|))
    ensures Holds(d, p + 6, Concat(Renumbered(sv.levels, 1), StoredRecord))
    ensures |EncodeSet(sv)| == 6 + |Concat(Renumbered(sv.levels, 1), StoredRecord)|
  {
    var m, c, rest := LE32(sv.magic), LE16(|sv.levels|), Concat(Renumbered(sv.levels, 1), StoredRecord);
    HoldsSplit(d, p, m + c, rest);
    HoldsSplit(d, p, m, c);
  }

  /** A known magic, a count and that many records read as a set. */
  lemma SetFromParts(d: seq<byte>, p: nat, magic: u32, k: nat, vs: seq<LevelValue>, end: nat)
    requires KnownMagic(magic) && k == |vs|
    requires Get32(d, p) == Success(Read(magic, p + 4)) && Get16(d, p + 4) == Success(Read(k, p + 6))
    requires Gives(ReadMany(d, p + 6, k, [], ReadStored), vs, end)
    ensures SetRead(DecodeSet(d, p), SetValue(magic, vs), end)
  {
  }

  /** What write emits, read accepts and returns with the levels renumbered from 1. */
  lemma SetRoundTrip(d: seq<byte>, p: nat, sv: SetValue)
    requires KnownMagic(sv.magic) && |sv.levels| < 0x1_0000 && AllStorable(sv.levels)
    requires Holds(d, p, EncodeSet(sv))
    ensures SetRead(DecodeSet(d, p), SetValue(sv.magic, Renumbered(sv.levels, 1)), p + |EncodeSet(sv)|)
  {
    var vs := Renumbered(sv.levels, 1);
    SetSplit(d, p, sv);
    Get32Word(d, p, sv.magic);
    Get16Word(d, p + 4, |sv.levels|);
    RenumberedStorable(sv.levels, 1);
    LevelsRoundTrip(d, p + 6, vs, []);
    assert [] + vs == vs;
    SetFromParts(d, p, sv.magic, |sv.levels|, vs, p + 6 + |Concat(vs, StoredRecord)|);
  }

  // ------------------------------------------------------------------
  // Names and passwords of synthesised levels.
  // ------------------------------------------------------------------

  /** The decimal digits of `n`, as "%d" prints a non-negative number. */
  function Decimal(n: nat): (r: string)
    ensures |r| > 0 && forall i :: 0 <= i < |r| ==> '0' <= r[i] <= '9'
  {
    if n < 10 then [('0' as int + n) as char] else Decimal(n / 10) + [('0' as int + n % 10) as char]
  }

  /** The number a string of decimal digits spells. */
  function DigitsValue(s: string): int {
    if s == [] then 0 else 10 * DigitsValue(s[..|s| - 1]) + (s[|s| - 1] as int - '0' as int)
  }

  /** Printing then reading back a number gives the number. */
  lemma {:induction false} DecimalRoundTrip(n: nat)
    ensures DigitsValue(Decimal(n)) == n
  {
    var s := Decimal(n);
    if n < 10 {
      assert s[..|s| - 1] == [];
    } else {
      assert s[..|s| - 1] == Decimal(n / 10);
      DecimalRoundTrip(n / 10);
    }
  }

  /** The name a synthesised k-th level gets. */
  function LevelName(k: nat): string {
    "Level " + Decimal(k)
  }

  /** Different levels are given different names. */
  lemma LevelNamesDistinct(j: nat, k: nat)
    requires j != k
    ensures LevelName(j) != LevelName(k)
  {
    if LevelName(j) == LevelName(k) {
      assert Decimal(j) == LevelName(j)[6..];
      assert Decimal(k) == LevelName(k)[6..];
      DecimalRoundTrip(j);
      DecimalRoundTrip(k);
    }
  }

  /** RandomPassword's format: four capital letters. */
  predicate PasswordFormat(s: string) {
    |s| == 4 && forall i :: 0 <= i < 4 ==> 'A' <= s[i] <= 'Z'
  }

  /** A synthesised k-th level: a fresh level with its name and a password of the right format. */
  predicate Synthesised(v: LevelValue, k: nat) {
    v == Fresh().(name := LevelName(k), password := v.password) && PasswordFormat(v.password)
  }

  // ------------------------------------------------------------------
  // DetermineLevelsetType's classification of a file header.
  // ------------------------------------------------------------------

  datatype LevelsetType = LevelsetError | LevelsetCcl | LevelsetDac

  /**
   * A file that could not be opened, or that holds fewer than four bytes,
   * is an error; otherwise its first four bytes, taken as a little-endian
   * 32-bit number, make it a levelset file when they are one of the magic
   * numbers, and a DAC file otherwise.
   */
  function Classify(isOpen: bool, head: seq<byte>): LevelsetType {
    if !isOpen || |head| < 4 then LevelsetError
    else if KnownMagic(Get32(head, 0).value.val) then LevelsetCcl
    else LevelsetDac
  }

  /** No stored-mode record read fails for a bad levelset header. */
  lemma StoredNeverHeader(d: seq<byte>)
    ensures forall q :: ReadStored(d, q).Failure? ==> ReadStored(d, q).error != InvalidHeader
  {
  }

  /** A header classified as a levelset file is exactly one that read does not reject as a bad header. */
  lemma ClassifyAgreesWithRead(head: seq<byte>)
    requires |head| >= 4
    ensures Classify(true, head) == LevelsetCcl <==> DecodeSet(head, 0) != Failure(InvalidHeader)
    ensures Classify(true, head) == LevelsetDac <==> DecodeSet(head, 0) == Failure(InvalidHeader)
  {
    if KnownMagic(Get32(head, 0).value.val) && Get16(head, 4).Success? {
      var c := Get16(head, 4).value;
      StoredNeverHeader(head);
      ReadManyAvoids(head, c.next, c.val, [], ReadStored, InvalidHeader);
    }
  }

  /** A header that starts with a magic number written little-endian is classified by that number. */
  lemma ClassifyMagic(head: seq<byte>, m: u32)
    requires Holds(head, 0, LE32(m))
    ensures Classify(true, head) == (if KnownMagic(m) then LevelsetCcl else LevelsetDac)
  {
    Get32Word(head, 0, m);
  }

  /** A written set is classified as a levelset file whenever its magic is one of the four. */
  lemma WrittenSetClassified(sv: SetValue, more: seq<byte>)
    ensures Classify(true, EncodeSet(sv) + more) == (if KnownMagic(sv.magic) then LevelsetCcl else LevelsetDac)
  {
    var m, c, rest := LE32(sv.magic), LE16(|sv.levels|), Concat(Renumbered(sv.levels, 1), StoredRecord);
    HoldsPrefix(m, c);
    HoldsExtend(m + c, 0, m, rest);
    HoldsExtend(EncodeSet(sv), 0, m, more);
    ClassifyMagic(EncodeSet(sv) + more, sv.magic);
  }
}
