/**
 * The levelset object: a magic number and an ordered list of levels. New
 * levels are synthesised with a name and a random password; levels are added,
 * inserted and taken by position; the whole set is read from and written to a
 * stream, and writing renumbers the levels in list order.
 */
module Levelsets {
  import opened Bytes
  import opened Streams
  import opened LevelFormat
  import opened Level
  import opened Records
  import opened SetFormat

  /** The levels `ls` as values, in order. */
  ghost function Values(ls: seq<LevelData>): (r: seq<LevelValue>)
    reads ls, set l | l in ls :: l.grid, set l | l in ls :: l.grid.fg, set l | l in ls :: l.grid.bg
    ensures |r| == |ls|
  {
    if ls == [] then [] else [ls[0].Value()] + Values(ls[1..])
  }

  /** Entry `i` of the values is the value of level `i`. */
  lemma {:induction false} ValueAt(ls: seq<LevelData>, i: nat)
    requires i < |ls|
    ensures Values(ls)[i] == ls[i].Value()
  {
    if i > 0 {
      ValueAt(ls[1..], i - 1);
      assert ls[1..][i - 1] == ls[i];
    }
  }

  /** Levels whose values are `vs`, one by one, have the values `vs`. */
  lemma {:induction false} ValuesAre(ls: seq<LevelData>, vs: seq<LevelValue>)
    requires |ls| == |vs| && forall i :: 0 <= i < |ls| ==> ls[i].Value() == vs[i]
    ensures Values(ls) == vs
  {
    if ls != [] {
      forall i | 0 <= i < |ls| - 1 ensures ls[1..][i].Value() == vs[1..][i] {
        assert ls[1..][i] == ls[i + 1] && vs[1..][i] == vs[i + 1];
      }
      ValuesAre(ls[1..], vs[1..]);
      assert vs == [vs[0]] + vs[1..];
    }
  }

  /** Every level well formed, and no level object listed twice. */
  ghost predicate LevelsValid(ls: seq<LevelData>)
    reads ls, set l | l in ls :: l.grid
  {
    (forall i :: 0 <= i < |ls| ==> ls[i].Valid()) &&
    (forall i, j :: 0 <= i < j < |ls| ==> ls[i] != ls[j])
  }

  /** Appending a well-formed level that is not yet listed keeps the list well formed. */
  lemma LevelsValidSnoc(ls: seq<LevelData>, l: LevelData)
    requires LevelsValid(ls) && l.Valid() && l !in ls
    ensures LevelsValid(ls + [l])
  {
    var ls' := ls + [l];
    forall i | 0 <= i < |ls'| ensures ls'[i].Valid() {
      if i < |ls| { assert ls'[i] == ls[i]; }
    }
    forall i, j | 0 <= i < j < |ls'| ensures ls'[i] != ls'[j] {
      assert ls'[i] == ls[i];
      if j < |ls| { assert ls'[j] == ls[j]; }
    }
  }

  /** Inserting a well-formed level that is not yet listed keeps the list well formed. */
  lemma LevelsValidInserted(ls: seq<LevelData>, where: nat, l: LevelData)
    requires LevelsValid(ls) && l.Valid() && l !in ls && where <= |ls|
    ensures LevelsValid(Inserted(ls, where, l))
  {
    var ls' := Inserted(ls, where, l);
    forall i, j | 0 <= i < j < |ls'| ensures ls'[i] != ls'[j] {
      if i < where { assert ls'[i] == ls[i]; }
      else if i > where { assert ls'[i] == ls[i - 1]; }
      if j < where { assert ls'[j] == ls[j]; }
      else if j > where { assert ls'[j] == ls[j - 1]; }
    }
  }

  /** Removing a level keeps the list well formed. */
  lemma LevelsValidRemoved(ls: seq<LevelData>, num: nat)
    requires LevelsValid(ls) && num < |ls|
    ensures LevelsValid(Removed(ls, num))
  {
    var ls' := Removed(ls, num);
    forall i, j | 0 <= i < j < |ls'| ensures ls'[i] != ls'[j] {
      if i < num { assert ls'[i] == ls[i]; } else { assert ls'[i] == ls[i + 1]; }
      if j < num { assert ls'[j] == ls[j]; } else { assert ls'[j] == ls[j + 1]; }
    }
  }

  /** The values of a list with a level appended. */
  lemma ValuesSnoc(ls: seq<LevelData>, l: LevelData)
    ensures Values(ls + [l]) == Values(ls) + [l.Value()]
  {
    var ls', vs' := ls + [l], Values(ls) + [l.Value()];
    forall i | 0 <= i < |ls'| ensures ls'[i].Value() == vs'[i] {
      if i < |ls| {
        ValueAt(ls, i);
        assert ls'[i] == ls[i];
      }
    }
    ValuesAre(ls', vs');
  }

  /** The values of a list with a level inserted. */
  lemma ValuesInserted(ls: seq<LevelData>, where: nat, l: LevelData)
    requires where <= |ls|
    ensures Values(Inserted(ls, where, l)) == Inserted(Values(ls), where, l.Value())
  {
    var ls', vs' := Inserted(ls, where, l), Inserted(Values(ls), where, l.Value());
    forall i | 0 <= i < |ls'| ensures ls'[i].Value() == vs'[i] {
      if i < where {
        ValueAt(ls, i);
        assert ls'[i] == ls[i] && vs'[i] == Values(ls)[i];
      } else if i > where {
        ValueAt(ls, i - 1);
        assert ls'[i] == ls[i - 1] && vs'[i] == Values(ls)[i - 1];
      }
    }
    ValuesAre(ls', vs');
  }

  /** The values of a list with a level removed. */
  lemma ValuesRemoved(ls: seq<LevelData>, num: nat)
    requires num < |ls|
    ensures Values(Removed(ls, num)) == Removed(Values(ls), num)
  {
    var ls', vs' := Removed(ls, num), Removed(Values(ls), num);
    forall i | 0 <= i < |ls'| ensures ls'[i].Value() == vs'[i] {
      if i < num {
        ValueAt(ls, i);
        assert ls'[i] == ls[i] && vs'[i] == Values(ls)[i];
      } else {
        ValueAt(ls, i + 1);
        assert ls'[i] == ls[i + 1] && vs'[i] == Values(ls)[i + 1];
      }
    }
    ValuesAre(ls', vs');
  }

  /** Four capital letters, each chosen by the random source; rand() itself is not modelled. */
  method RandomPassword() returns (p: string)
    ensures PasswordFormat(p)
  {
    var buf := new char[4];
    var i := 0;
    while i < 4
      invariant 0 <= i <= 4
      invariant forall j :: 0 <= j < i ==> 'A' <= buf[j] <= 'Z'
    {
      var k: int :| 0 <= k < 26;
      buf[i] := ('A' as int + k) as char;
      i := i + 1;
    }
    p := buf[..];
  }

  /** A fresh level named for position `k` with a random password. */
  method Synthesise(k: nat) returns (l: LevelData)
    ensures fresh(l) && fresh(l.grid) && fresh(l.grid.fg) && fresh(l.grid.bg)
    ensures l.Valid() && Synthesised(l.Value(), k)
  {
    l := new LevelData();
    l.SetName(LevelName(k));
    var password := RandomPassword();
    l.SetPassword(password);
  }

  /** One stored-mode level read into a fresh level. */
  method ReadOne(s: Stream) returns (r: Result<LevelData>)
    requires s.Valid()
    modifies s
    ensures s.Valid() && s.data == old(s.data)
    ensures match ReadStored(s.data, old(s.pos))
      case Success(rd) =>
        r.Success? && fresh(r.value) && fresh(r.value.grid) && r.value.Valid() && r.value.Value() == rd.val &&
        s.pos == rd.next
      case Failure(e) => r == Failure(e)
  {
    var l := new LevelData();
    var u := l.Read(s, false);
    if u.Failure? {
      return Failure(u.error);
    }
    r := Success(l);
  }

  /** Reads `k` stored-mode levels, each into a fresh level; the first failure aborts. */
  method ReadLevels(s: Stream, k: nat) returns (r: Result<seq<LevelData>>)
    requires s.Valid()
    modifies s
    ensures s.Valid() && s.data == old(s.data)
    ensures match ReadMany(s.data, old(s.pos), k, [], ReadStored)
      case Success(rd) =>
        r.Success? && s.pos == rd.next && LevelsValid(r.value) && Values(r.value) == rd.val &&
        forall i :: 0 <= i < |r.value| ==> fresh(r.value[i])
      case Failure(e) => r == Failure(e)
  {
    var ls: seq<LevelData> := [];
    ghost var acc: seq<LevelValue> := [];
    ghost var cuts: seq<nat> := [s.pos];
    var i := 0;
    while i < k
      invariant 0 <= i <= k && |ls| == i && |acc| == i
      invariant s.Valid() && s.data == old(s.data)
      invariant LevelsValid(ls)
      invariant forall j :: 0 <= j < i ==> fresh(ls[j]) && ls[j].Value() == acc[j]
      invariant Chained(s.data, acc, ReadStored, cuts) && cuts[0] == old(s.pos) && cuts[i] == s.pos
    {
      var one := ReadOne(s);
      if one.Failure? {
        ChainedFails(s.data, acc, ReadStored, cuts, k, []);
        return Failure(one.error);
      }
      ChainedSnoc(s.data, acc, ReadStored, cuts, one.value.Value(), s.pos);
      LevelsValidSnoc(ls, one.value);
      ls, acc, cuts := ls + [one.value], acc + [one.value.Value()], cuts + [s.pos];
      i := i + 1;
    }
    ChainedMany(s.data, acc, ReadStored, cuts, []);
    assert [] + acc == acc;
    ValuesAre(ls, acc);
    r := Success(ls);
  }

  /** The part of Levelset::read after the magic `m` (read at `p0`): the magic check, the count, the levels. */
  method ReadBody(s: Stream, m: u32, ghost p0: nat) returns (r: Result<seq<LevelData>>)
    requires s.Valid() && Get32(s.data, p0) == Success(Read(m, s.pos))
    modifies s
    ensures s.Valid() && s.data == old(s.data)
    ensures match DecodeSet(s.data, p0)
      case Success(rd) =>
        r.Success? && rd.val.magic == m && LevelsValid(r.value) && Values(r.value) == rd.val.levels &&
        s.pos == rd.next && forall i :: 0 <= i < |r.value| ==> fresh(r.value[i])
      case Failure(e) => r == Failure(e)
  {
    if !KnownMagic(m) {
      return Failure(InvalidHeader);
    }
    var count :- s.Read16();
    r := ReadLevels(s, count);
  }

  /** The magic, then the rest of the levelset as ReadBody reads it. */
  method ReadSet(s: Stream) returns (r: Result<(u32, seq<LevelData>)>)
    requires s.Valid()
    modifies s
    ensures s.Valid() && s.data == old(s.data)
    ensures match DecodeSet(s.data, old(s.pos))
      case Success(rd) =>
        r.Success? && r.value.0 == rd.val.magic && LevelsValid(r.value.1) && Values(r.value.1) == rd.val.levels &&
        s.pos == rd.next && forall i :: 0 <= i < |r.value.1| ==> fresh(r.value.1[i])
      case Failure(e) => r == Failure(e)
  {
    ghost var p0 := s.pos;
    var m :- s.Read32();
    var ls :- ReadBody(s, m, p0);
    r := Success((m, ls));
  }

  /** Gives level `i` of `ls` the level number `n` and leaves every other level as it was. */
  method Renumber(ls: seq<LevelData>, i: nat, n: u16)
    requires LevelsValid(ls) && i < |ls|
    modifies ls[i]
    ensures LevelsValid(ls) && ls[i].Value() == old(ls[i].Value()).(levelNum := n)
    ensures Values(ls) == old(Values(ls))[i := old(ls[i].Value()).(levelNum := n)]
  {
    ghost var vs := Values(ls);
    ghost var v' := ls[i].Value().(levelNum := n);
    forall j | 0 <= j < |ls| ensures ls[j].Value() == vs[j] {
      ValueAt(ls, j);
    }
    ls[i].SetLevelNum(n);
    ValuesAre(ls, vs[i := v']);
  }

  /**
   * Proof aid only: `enc` is always `StoredRecord`. It is passed as a ghost
   * parameter so that the write loop reasons about the layout without
   * unfolding the encoder, which keeps those proofs cheap.
   */
  ghost predicate IsStoredRecord(enc: LevelValue -> seq<byte>) {
    forall v {:trigger StoredRecord(v)} :: enc(v) == StoredRecord(v)
  }

  /** Writes level `i` of `ls` with `enc` (stored mode); the levels are left as they are. */
  method WriteOne(ls: seq<LevelData>, i: nat, s: Stream, ghost x: LevelValue, ghost enc: LevelValue -> seq<byte>)
    requires i < |ls| && LevelsValid(ls) && s.Valid() && IsStoredRecord(enc) && ls[i].Value() == x
    modifies s
    ensures LevelsValid(ls) && Values(ls) == old(Values(ls))
    ensures s.Valid() && s.data == Splice(old(s.data), old(s.pos), enc(x))
    ensures s.pos == old(s.pos) + |enc(x)|
  {
    var n := ls[i].Write(s, false);
    assert StoredRecord(x) == enc(x);
  }

  /** One pass of the write loop: level `i` renumbered to `i + 1` and written after the ones before it. */
  method WriteStep(ls: seq<LevelData>, i: nat, s: Stream, ghost d: seq<byte>, ghost p: nat, ghost head: seq<byte>,
                   ghost vs: seq<LevelValue>, ghost enc: LevelValue -> seq<byte>)
    requires i < |ls| == |vs| && LevelsValid(ls) && s.Valid() && p <= |d| && IsStoredRecord(enc)
    requires Values(ls) == Renumbered(vs, 1)[..i] + vs[i..]
    requires s.data == Splice(d, p, head + Concat(Renumbered(vs, 1)[..i], enc))
    requires s.pos == p + |head + Concat(Renumbered(vs, 1)[..i], enc)|
    modifies s, ls[i]
    ensures LevelsValid(ls) && Values(ls) == Renumbered(vs, 1)[..i + 1] + vs[i + 1..]
    ensures s.Valid() && s.data == Splice(d, p, head + Concat(Renumbered(vs, 1)[..i + 1], enc))
    ensures s.pos == p + |head + Concat(Renumbered(vs, 1)[..i + 1], enc)|
  {
    ghost var rs := Renumbered(vs, 1);
    ghost var d1, p1 := s.data, s.pos;
    ValueAt(ls, i);
    Renumber(ls, i, Low16(i + 1));
    assert ls[i].Value() == rs[i];
    PrefixAdvance(rs, vs, i);
    assert s.data == d1 && s.pos == p1;
    WriteOne(ls, i, s, rs[i], enc);
    WrittenAfter(d, p, head, rs[..i], rs[i], enc, d1, p1, s.data, s.pos);
    TakeSnoc(rs, i);
  }

  /** Numbers the levels from 1 in list order and writes each with `enc` (stored mode) after `head`. */
  method WriteLevels(ls: seq<LevelData>, s: Stream, ghost d: seq<byte>, ghost p: nat, ghost head: seq<byte>,
                     ghost enc: LevelValue -> seq<byte>)
    requires LevelsValid(ls) && s.Valid() && p <= |d| && IsStoredRecord(enc)
    requires s.data == Splice(d, p, head) && s.pos == p + |head|
    modifies s, ls
    ensures LevelsValid(ls) && Values(ls) == Renumbered(old(Values(ls)), 1)
    ensures s.Valid() && s.data == Splice(d, p, head + Concat(Renumbered(old(Values(ls)), 1), enc))
    ensures s.pos == p + |head + Concat(Renumbered(old(Values(ls)), 1), enc)|
  {
    ghost var vs := Values(ls);
    ghost var rs := Renumbered(vs, 1);
    PrefixEnds(rs, vs);
    assert head + Concat(rs[..0], enc) == head;
    var i := 0;
    while i < |ls|
      invariant 0 <= i <= |ls| && LevelsValid(ls) && Values(ls) == rs[..i] + vs[i..]
      invariant s.Valid() && s.data == Splice(d, p, head + Concat(rs[..i], enc))
      invariant s.pos == p + |head + Concat(rs[..i], enc)|
    {
      WriteStep(ls, i, s, d, p, head, vs, enc);
      i := i + 1;
    }
    PrefixEnds(rs, vs);
    assert rs[..i] == rs;
  }

  /** A fresh copy of every level of `src`, in order. */
  method CopyLevels(src: seq<LevelData>) returns (ls: seq<LevelData>)
    requires LevelsValid(src)
    ensures LevelsValid(ls) && Values(ls) == Values(src)
    ensures forall i :: 0 <= i < |ls| ==> fresh(ls[i])
  {
    ls := [];
    var i := 0;
    while i < |src|
      invariant 0 <= i <= |src| && |ls| == i
      invariant LevelsValid(ls)
      invariant forall j :: 0 <= j < i ==> fresh(ls[j]) && ls[j].Value() == src[j].Value()
    {
      var l := new LevelData.Copy(src[i]);
      LevelsValidSnoc(ls, l);
      ls := ls + [l];
      i := i + 1;
    }
    forall j | 0 <= j < i ensures ls[j].Value() == Values(src)[j] {
      ValueAt(src, j);
    }
    ValuesAre(ls, Values(src));
  }

  /** The magic `m`, the level count, then every level of `ls` renumbered from 1 and in stored mode. */
  method WriteSet(m: u32, ls: seq<LevelData>, s: Stream)
    requires LevelsValid(ls) && s.Valid()
    modifies s, ls
    ensures LevelsValid(ls) && Values(ls) == Renumbered(old(Values(ls)), 1)
    ensures s.Valid() && s.data == Splice(old(s.data), old(s.pos), EncodeSet(SetValue(m, old(Values(ls)))))
    ensures s.pos == old(s.pos) + |EncodeSet(SetValue(m, old(Values(ls))))|
  {
    ghost var d, p, vs := s.data, s.pos, Values(ls);
    ghost var head := LE32(m) + LE16(|ls|);
    s.Write32(m);
    s.Write16(|ls|);
    assert Values(ls) == vs;
    SpliceAppend(d, p, LE32(m), LE16(|ls|));
    WriteLevels(ls, s, d, p, head, StoredRecord);
  }

  class Levelset {
    var magic: u32
    var levels: seq<LevelData>

    ghost predicate Valid()
      reads this, levels, set l | l in levels :: l.grid
    {
      LevelsValid(levels)
    }

    /** The levels as values, in list order. */
    ghost function Contents(): seq<LevelValue>
      reads this, levels, set l | l in levels :: l.grid
      reads set l | l in levels :: l.grid.fg, set l | l in levels :: l.grid.bg
    {
      Values(levels)
    }

    /** A set of `levelCount` synthesised levels, named "Level 1" onwards, with the MS magic. */
    constructor (levelCount: nat)
      ensures Valid() && magic == TypeMS && |levels| == levelCount
      ensures forall i :: 0 <= i < levelCount ==> fresh(levels[i]) && Synthesised(Contents()[i], i + 1)
    {
      var ls: seq<LevelData> := [];
      var i := 0;
      while i < levelCount
        invariant 0 <= i <= levelCount && |ls| == i
        invariant LevelsValid(ls)
        invariant forall j :: 0 <= j < i ==> fresh(ls[j]) && Synthesised(ls[j].Value(), j + 1)
      {
        var l := Synthesise(i + 1);
        LevelsValidSnoc(ls, l);
        ls := ls + [l];
        i := i + 1;
      }
      forall j | 0 <= j < levelCount ensures Synthesised(Values(ls)[j], j + 1) {
        ValueAt(ls, j);
      }
      magic, levels := TypeMS, ls;
    }

    /** The copy constructor: the same magic and a copy of every level. */
    constructor Copy(init: Levelset)
      requires init.Valid()
      ensures Valid() && magic == init.magic && |levels| == |init.levels|
      ensures Contents() == init.Contents()
      ensures forall i :: 0 <= i < |levels| ==> fresh(levels[i])
    {
      var ls := CopyLevels(init.levels);
      magic, levels := init.magic, ls;
    }

    /** Appends a synthesised level named for its position, counting from 1. */
    method AddLevel() returns (level: LevelData)
      requires Valid()
      modifies this
      ensures Valid() && magic == old(magic) && fresh(level)
      ensures levels == old(levels) + [level]
      ensures Contents() == old(Contents()) + [level.Value()] && Synthesised(level.Value(), |levels|)
    {
      ghost var before, vs := levels, Contents();
      level := Synthesise(|levels| + 1);
      assert Values(before) == vs;
      levels := levels + [level];
      LevelsValidSnoc(before, level);
      ValuesSnoc(before, level);
    }

    /** Appends an existing level. */
    method AddExistingLevel(level: LevelData)
      requires Valid() && level.Valid() && level !in levels
      modifies this
      ensures Valid() && magic == old(magic)
      ensures levels == old(levels) + [level] && Contents() == old(Contents()) + [level.Value()]
    {
      LevelsValidSnoc(levels, level);
      ValuesSnoc(levels, level);
      levels := levels + [level];
    }

    /** Puts `level` at index `where`; the levels from there on move up by one. */
    method InsertLevel(where: nat, level: LevelData)
      requires Valid() && level.Valid() && level !in levels && where <= |levels|
      modifies this
      ensures Valid() && magic == old(magic)
      ensures levels == Inserted(old(levels), where, level)
      ensures Contents() == Inserted(old(Contents()), where, level.Value())
    {
      LevelsValidInserted(levels, where, level);
      ValuesInserted(levels, where, level);
      levels := Inserted(levels, where, level);
    }

    /** Removes the level at index `num` and hands it back; the levels after it move down by one. */
    method TakeLevel(num: nat) returns (level: LevelData)
      requires Valid() && num < |levels|
      modifies this
      ensures Valid() && magic == old(magic) && level == old(levels)[num]
      ensures levels == Removed(old(levels), num)
      ensures Contents() == Removed(old(Contents()), num) && level.Value() == old(Contents())[num]
    {
      level := levels[num];
      ValueAt(levels, num);
      LevelsValidRemoved(levels, num);
      ValuesRemoved(levels, num);
      levels := Removed(levels, num);
    }

    /**
     * Levelset::read. The list is emptied, the magic read and checked, then
     * the count and that many levels, each into a fresh level. On success
     * the result carries the number of levels read.
     */
    method Read(s: Stream) returns (r: Result<nat>)
      requires Valid() && s.Valid()
      modifies this, s
      ensures Valid() && s.Valid() && s.data == old(s.data)
      ensures match DecodeSet(s.data, old(s.pos))
        case Success(rd) =>
          r == Success(|rd.val.levels|) && magic == rd.val.magic && Contents() == rd.val.levels &&
          s.pos == rd.next && forall i :: 0 <= i < |levels| ==> fresh(levels[i])
        case Failure(e) => r == Failure(e)
    {
      levels := [];
      var read :- ReadSet(s);
      magic, levels := read.0, read.1;
      r := Success(|levels|);
    }

    /**
     * Levelset::write. The magic, the level count, then every level in
     * stored mode after giving it its position (from 1) as level number.
     */
    method Write(s: Stream)
      requires Valid() && s.Valid()
      modifies s, levels
      ensures Valid() && levels == old(levels) && magic == old(magic)
      ensures Contents() == Renumbered(old(Contents()), 1)
      ensures s.Valid() && s.data == Splice(old(s.data), old(s.pos), EncodeSet(SetValue(magic, old(Contents()))))
      ensures s.pos == old(s.pos) + |EncodeSet(SetValue(magic, old(Contents())))|
    {
      WriteSet(magic, levels, s);
    }
  }
}
