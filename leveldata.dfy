/**
 * The LevelData object: one level held in mutable members, with the table
 * lookups and edits the editor performs on it, and read and write of its
 * record on a stream. Each operation is proved against the value-level
 * definitions of LevelFormat and Links.
 */
module Level {
  import opened Bytes
  import opened Streams
  import opened Tiles
  import opened Links
  import opened LevelFormat

  // ------------------------------------------------------------------
  // Table entries on a stream.
  // ------------------------------------------------------------------

  /** The five 16-bit reads of one trap entry; the state word is read and dropped. */
  method ReadTrap(s: Stream) returns (r: Result<Trap>)
    requires s.Valid()
    modifies s
    ensures s.Valid() && s.data == old(s.data)
    ensures match GetTrap(s.data, old(s.pos))
      case Success(rd) => r == Success(rd.val) && s.pos == rd.next
      case Failure(e) => r == Failure(e)
  {
    var buttonX :- s.Read16();
    var buttonY :- s.Read16();
    var trapX :- s.Read16();
    var trapY :- s.Read16();
    var state :- s.Read16();
    r := Success(Trap(Point(buttonX, buttonY), Point(trapX, trapY)));
  }

  method ReadClone(s: Stream) returns (r: Result<Clone>)
    requires s.Valid()
    modifies s
    ensures s.Valid() && s.data == old(s.data)
    ensures match GetClone(s.data, old(s.pos))
      case Success(rd) => r == Success(rd.val) && s.pos == rd.next
      case Failure(e) => r == Failure(e)
  {
    var buttonX :- s.Read16();
    var buttonY :- s.Read16();
    var cloneX :- s.Read16();
    var cloneY :- s.Read16();
    r := Success(Clone(Point(buttonX, buttonY), Point(cloneX, cloneY)));
  }

  method ReadMover(s: Stream) returns (r: Result<Point>)
    requires s.Valid()
    modifies s
    ensures s.Valid() && s.data == old(s.data)
    ensures match GetMover(s.data, old(s.pos))
      case Success(rd) => r == Success(rd.val) && s.pos == rd.next
      case Failure(e) => r == Failure(e)
  {
    var x :- s.Read8();
    var y :- s.Read8();
    r := Success(Point(x, y));
  }

  method WriteTrap(s: Stream, t: Trap)
    requires s.Valid()
    modifies s
    ensures s.Valid() && s.data == Splice(old(s.data), old(s.pos), TrapBytes(t)) && s.pos == old(s.pos) + 10
  {
    ghost var d, p := s.data, s.pos;
    var a, b, c, e := LE16(t.button.X), LE16(t.button.Y), LE16(t.trap.X), LE16(t.trap.Y);
    s.Write16(t.button.X);
    s.Write16(t.button.Y);
    SpliceAppend(d, p, a, b);
    s.Write16(t.trap.X);
    SpliceAppend(d, p, a + b, c);
    s.Write16(t.trap.Y);
    SpliceAppend(d, p, a + b + c, e);
    s.Write16(0);
    SpliceAppend(d, p, a + b + c + e, LE16(0));
  }

  method WriteClone(s: Stream, c: Clone)
    requires s.Valid()
    modifies s
    ensures s.Valid() && s.data == Splice(old(s.data), old(s.pos), CloneBytes(c)) && s.pos == old(s.pos) + 8
  {
    ghost var d, p := s.data, s.pos;
    var a, b, x := LE16(c.button.X), LE16(c.button.Y), LE16(c.clone.X);
    s.Write16(c.button.X);
    s.Write16(c.button.Y);
    SpliceAppend(d, p, a, b);
    s.Write16(c.clone.X);
    SpliceAppend(d, p, a + b, x);
    s.Write16(c.clone.Y);
    SpliceAppend(d, p, a + b + x, LE16(c.clone.Y));
  }

  method WriteMover(s: Stream, m: Point)
    requires s.Valid()
    modifies s
    ensures s.Valid() && s.data == Splice(old(s.data), old(s.pos), MoverBytes(m)) && s.pos == old(s.pos) + 2
  {
    ghost var d, p := s.data, s.pos;
    s.Write8(m.X);
    s.Write8(m.Y);
    SpliceAppend(d, p, [Low8(m.X)], [Low8(m.Y)]);
  }

  // ------------------------------------------------------------------
  // Field records on a stream.
  // ------------------------------------------------------------------

  /** One field record of write: tag, size byte, payload. */
  method WriteField(s: Stream, f: Field)
    requires s.Valid()
    modifies s
    ensures s.Valid() && s.data == Splice(old(s.data), old(s.pos), FieldBytes(f))
    ensures s.pos == old(s.pos) + |FieldBytes(f)|
  {
    ghost var d, p := s.data, s.pos;
    var tag, size := Tag(f), Low8(|Payload(f)|);
    ghost var head := [tag, size];
    s.Write8(tag);
    s.Write8(size);
    assert s.data == Splice(d, p, head) by {
      Low8Keeps(tag);
      Low8Keeps(size);
      SpliceAppend(d, p, [tag], [size]);
      assert [tag] + [size] == head;
    }
    ghost var mid := s.data;
    var n: nat;
    match f {
      case NameField(str) => n := s.WriteString(str, false);
      case HintField(str) => n := s.WriteString(str, false);
      case PasswordField(str) => n := s.WriteString(str, true);
      case TrapsField(ts) => WriteTraps(s, ts);
      case ClonesField(cs) => WriteClones(s, cs);
      case MovesField(ms) => WriteMovers(s, ms);
    }
    assert s.data == Splice(mid, p + 2, Payload(f));
    SpliceAppend(d, p, head, Payload(f));
  }

  method WriteTraps(s: Stream, ts: seq<Trap>)
    requires s.Valid()
    modifies s
    ensures s.Valid() && s.data == Splice(old(s.data), old(s.pos), TrapsBytes(ts))
    ensures s.pos == old(s.pos) + |TrapsBytes(ts)|
  {
    ghost var d, p := s.data, s.pos;
    var i := 0;
    while i < |ts|
      invariant 0 <= i <= |ts| && s.Valid() && p <= |d|
      invariant s.data == Splice(d, p, TrapsBytes(ts[..i])) && s.pos == p + 10 * i
    {
      WriteTrap(s, ts[i]);
      SpliceAppend(d, p, TrapsBytes(ts[..i]), TrapBytes(ts[i]));
      TrapsBytesSnoc(ts[..i], ts[i]);
      assert ts[..i + 1] == ts[..i] + [ts[i]];
      i := i + 1;
    }
    assert ts[..i] == ts;
  }

  method WriteClones(s: Stream, cs: seq<Clone>)
    requires s.Valid()
    modifies s
    ensures s.Valid() && s.data == Splice(old(s.data), old(s.pos), ClonesBytes(cs))
    ensures s.pos == old(s.pos) + |ClonesBytes(cs)|
  {
    ghost var d, p := s.data, s.pos;
    var i := 0;
    while i < |cs|
      invariant 0 <= i <= |cs| && s.Valid() && p <= |d|
      invariant s.data == Splice(d, p, ClonesBytes(cs[..i])) && s.pos == p + 8 * i
    {
      WriteClone(s, cs[i]);
      SpliceAppend(d, p, ClonesBytes(cs[..i]), CloneBytes(cs[i]));
      ClonesBytesSnoc(cs[..i], cs[i]);
      assert cs[..i + 1] == cs[..i] + [cs[i]];
      i := i + 1;
    }
    assert cs[..i] == cs;
  }

  method WriteMovers(s: Stream, ms: seq<Point>)
    requires s.Valid()
    modifies s
    ensures s.Valid() && s.data == Splice(old(s.data), old(s.pos), MoversBytes(ms))
    ensures s.pos == old(s.pos) + |MoversBytes(ms)|
  {
    ghost var d, p := s.data, s.pos;
    var i := 0;
    while i < |ms|
      invariant 0 <= i <= |ms| && s.Valid() && p <= |d|
      invariant s.data == Splice(d, p, MoversBytes(ms[..i])) && s.pos == p + 2 * i
    {
      WriteMover(s, ms[i]);
      SpliceAppend(d, p, MoversBytes(ms[..i]), MoverBytes(ms[i]));
      MoversBytesSnoc(ms[..i], ms[i]);
      assert ms[..i + 1] == ms[..i] + [ms[i]];
      i := i + 1;
    }
    assert ms[..i] == ms;
  }

  // ------------------------------------------------------------------
  // The object.
  // ------------------------------------------------------------------

  /** LevelData: one level's numbers, grid, strings and link tables (its reference count is not modelled). */
  class LevelData {
    var grid: LevelMap
    var name: string
    var hint: string
    var password: string
    var levelNum: u16
    var timer: u16
    var chips: u16
    var traps: seq<Trap>
    var clones: seq<Clone>
    var moves: seq<Point>

    ghost predicate Valid()
      reads this, grid
    {
      grid.Valid()
    }

    /** The level as a value. */
    ghost function Value(): LevelValue
      reads this, grid, grid.fg, grid.bg
    {
      LevelValue(levelNum, timer, chips, grid.fg[..], grid.bg[..], name, hint, password, traps, clones, moves)
    }

    /** An empty level: zero numbers, a zeroed grid, no strings, no links. */
    constructor ()
      ensures Valid() && fresh(grid) && fresh(grid.fg) && fresh(grid.bg)
      ensures Value() == Fresh()
    {
      grid := new LevelMap();
      name, hint, password := "", "", "";
      levelNum, timer, chips := 0, 0, 0;
      traps, clones, moves := [], [], [];
    }

    /** The copy constructor: a grid of its own with the same tiles, every other member copied. */
    constructor Copy(init: LevelData)
      requires init.Valid()
      ensures Valid() && fresh(grid) && fresh(grid.fg) && fresh(grid.bg)
      ensures Value() == init.Value()
    {
      var g := new LevelMap();
      g.Assign(init.grid);
      grid := g;
      name, hint, password := init.name, init.hint, init.password;
      levelNum, timer, chips := init.levelNum, init.timer, init.chips;
      traps, clones, moves := init.traps, init.clones, init.moves;
    }

    method SetName(s: string)
      requires Valid()
      modifies this
      ensures Valid() && grid == old(grid) && Value() == old(Value()).(name := s)
    {
      name := s;
    }

    method SetPassword(s: string)
      requires Valid()
      modifies this
      ensures Valid() && grid == old(grid) && Value() == old(Value()).(password := s)
    {
      password := s;
    }

    method SetLevelNum(n: u16)
      requires Valid()
      modifies this
      ensures Valid() && grid == old(grid) && Value() == old(Value()).(levelNum := n)
    {
      levelNum := n;
    }

    // ----------------------------------------------------------------
    // Lookups.
    // ----------------------------------------------------------------

    /** linkedTraps: one pass over the trap table, collecting the traps of matching buttons. */
    method LinkedTraps(x: int, y: int) returns (r: seq<Point>)
      ensures r == Links.LinkedTraps(traps, x, y)
    {
      r := [];
      var i := 0;
      while i < |traps|
        invariant 0 <= i <= |traps|
        invariant r == Links.LinkedTraps(traps[..i], x, y)
      {
        var t := traps[i];
        if t.button.X == x && t.button.Y == y {
          r := r + [t.trap];
        }
        LinkedTrapsSnoc(traps, i, x, y);
        i := i + 1;
      }
      assert traps[..i] == traps;
    }

    method LinkedTrapButtons(x: int, y: int) returns (r: seq<Point>)
      ensures r == Links.LinkedTrapButtons(traps, x, y)
    {
      r := [];
      var i := 0;
      while i < |traps|
        invariant 0 <= i <= |traps|
        invariant r == Links.LinkedTrapButtons(traps[..i], x, y)
      {
        var t := traps[i];
        if t.trap.X == x && t.trap.Y == y {
          r := r + [t.button];
        }
        LinkedTrapButtonsSnoc(traps, i, x, y);
        i := i + 1;
      }
      assert traps[..i] == traps;
    }

    method LinkedCloners(x: int, y: int) returns (r: seq<Point>)
      ensures r == Links.LinkedCloners(clones, x, y)
    {
      r := [];
      var i := 0;
      while i < |clones|
        invariant 0 <= i <= |clones|
        invariant r == Links.LinkedCloners(clones[..i], x, y)
      {
        var c := clones[i];
        if c.button.X == x && c.button.Y == y {
          r := r + [c.clone];
        }
        LinkedClonersSnoc(clones, i, x, y);
        i := i + 1;
      }
      assert clones[..i] == clones;
    }

    method LinkedCloneButtons(x: int, y: int) returns (r: seq<Point>)
      ensures r == Links.LinkedCloneButtons(clones, x, y)
    {
      r := [];
      var i := 0;
      while i < |clones|
        invariant 0 <= i <= |clones|
        invariant r == Links.LinkedCloneButtons(clones[..i], x, y)
      {
        var c := clones[i];
        if c.clone.X == x && c.clone.Y == y {
          r := r + [c.button];
        }
        LinkedCloneButtonsSnoc(clones, i, x, y);
        i := i + 1;
      }
      assert clones[..i] == clones;
    }

    /** checkMove: stops at the first entry equal to (x, y). */
    method CheckMove(x: int, y: int) returns (r: bool)
      ensures r == Links.CheckMove(moves, x, y)
      ensures r <==> Point(x, y) in moves
    {
      var i := 0;
      while i < |moves|
        invariant 0 <= i <= |moves|
        invariant Point(x, y) !in moves[..i]
      {
        if moves[i].X == x && moves[i].Y == y {
          return true;
        }
        assert moves[..i + 1] == moves[..i] + [moves[i]];
        i := i + 1;
      }
      assert moves[..i] == moves;
      return false;
    }

    // ----------------------------------------------------------------
    // Edits.
    // ----------------------------------------------------------------

    /** trapConnect: appends the wiring unless an identical one is already in the table. */
    method TrapConnect(buttonX: int, buttonY: int, trapX: int, trapY: int)
      requires Valid()
      modifies this
      ensures Valid() && grid == old(grid)
      ensures Value() == old(Value()).(traps := Connected(old(traps), Trap(Point(buttonX, buttonY), Point(trapX, trapY))))
    {
      var item := Trap(Point(buttonX, buttonY), Point(trapX, trapY));
      var found := Scan(traps, item);
      if !found {
        traps := traps + [item];
      }
    }

    /** cloneConnect: appends the wiring unless an identical one is already in the table. */
    method CloneConnect(buttonX: int, buttonY: int, cloneX: int, cloneY: int)
      requires Valid()
      modifies this
      ensures Valid() && grid == old(grid)
      ensures Value() == old(Value()).(clones := Connected(old(clones), Clone(Point(buttonX, buttonY), Point(cloneX, cloneY))))
    {
      var item := Clone(Point(buttonX, buttonY), Point(cloneX, cloneY));
      var found := Scan(clones, item);
      if !found {
        clones := clones + [item];
      }
    }

    /** addMover: appends the cell to the forced-move list unless it is already there. */
    method AddMover(moverX: int, moverY: int)
      requires Valid()
      modifies this
      ensures Valid() && grid == old(grid)
      ensures Value() == old(Value()).(moves := Connected(old(moves), Point(moverX, moverY)))
    {
      var item := Point(moverX, moverY);
      var found := Scan(moves, item);
      if !found {
        moves := moves + [item];
      }
    }

    // ----------------------------------------------------------------
    // The record on a stream.
    // ----------------------------------------------------------------

    /**
     * LevelData::write: the record with zero placeholders for the size words,
     * then both patched in; answers the record length and leaves the stream
     * after the record.
     */
    method Write(s: Stream, clip: bool) returns (n: nat)
      requires Valid() && s.Valid()
      modifies s
      ensures s.Valid() && s.data == Splice(old(s.data), old(s.pos), EncodeLevel(Value(), clip))
      ensures s.pos == old(s.pos) + n && n == |EncodeLevel(Value(), clip)|
    {
      ghost var v := Value();
      ghost var d := s.data;
      var levelBegin := s.Tell();
      if !clip {
        s.Write16(0);
      }
      var fieldBegin := WriteRest(s, v);
      assert s.data == Splice(d, levelBegin, Draft(v, clip)) by {
        if !clip {
          StoredDraft(d, levelBegin, v);
        }
      }
      ghost var draft, off := Draft(v, clip), FieldWordAt(v, clip);
      assert fieldBegin - levelBegin == off;
      DraftEncodes(v, clip);
      PatchSizes(s, clip, levelBegin, fieldBegin, d, draft);
      assert s.data == Splice(d, levelBegin, EncodeLevel(v, clip));
      var levelEnd := s.Tell();
      n := levelEnd - levelBegin;
    }

    /**
     * Everything after the outer size word, with a zero placeholder for the
     * field-section word; answers where that placeholder is.
     */
    method WriteRest(s: Stream, ghost v: LevelValue) returns (fieldBegin: nat)
      requires Valid() && s.Valid() && v == Value()
      modifies s
      ensures s.Valid() && s.data == Splice(old(s.data), old(s.pos), Rest(v))
      ensures s.pos == old(s.pos) + |Rest(v)|
      ensures fieldBegin == old(s.pos) + 8 + |LayersBytes(v.fg, v.bg)|
    {
      ghost var d, p := s.data, s.pos;
      ghost var m, z, f := HeadWords(v) + LayersBytes(v.fg, v.bg), LE16(0), FieldsBytes(FieldList(v));
      assert |m| == 8 + |LayersBytes(v.fg, v.bg)|;
      WriteHead(s, v);
      ghost var d1 := s.data;
      assert d1 == Splice(d, p, m) && s.pos == p + |m|;
      fieldBegin := s.Tell();
      s.Write16(0);
      ghost var d2 := s.data;
      assert d2 == Splice(d1, p + |m|, z) && s.pos == p + |m| + |z|;
      WriteFields(s, v);
      assert s.data == Splice(d2, p + |m| + |z|, f);
      SpliceAppend3(d, p, m, z, f);
      assert Rest(v) == m + z + f;
    }

    /** The three numbers, the map marker and the grid. */
    method WriteHead(s: Stream, ghost v: LevelValue)
      requires Valid() && s.Valid() && v == Value()
      modifies s
      ensures s.Valid() && s.data == Splice(old(s.data), old(s.pos), HeadWords(v) + LayersBytes(v.fg, v.bg))
      ensures s.pos == old(s.pos) + 8 + |LayersBytes(v.fg, v.bg)|
    {
      ghost var d, p := s.data, s.pos;
      ghost var a, b, c, m := LE16(levelNum), LE16(timer), LE16(chips), LE16(1);
      s.Write16(levelNum);
      s.Write16(timer);
      SpliceAppend(d, p, a, b);
      s.Write16(chips);
      SpliceAppend(d, p, a + b, c);
      s.Write16(1);
      SpliceAppend(d, p, a + b + c, m);
      assert s.data == Splice(d, p, HeadWords(v)) && s.pos == p + 8;
      var k := grid.Write(s);
      SpliceAppend(d, p, HeadWords(v), LayersBytes(v.fg, v.bg));
    }

    /** The optional fields, each written only when non-empty, in write's fixed order. */
    method WriteFields(s: Stream, ghost v: LevelValue)
      requires Valid() && s.Valid() && v == Value()
      modifies s
      ensures s.Valid() && s.data == Splice(old(s.data), old(s.pos), FieldsBytes(FieldList(v)))
      ensures s.pos == old(s.pos) + |FieldsBytes(FieldList(v))|
    {
      ghost var d, p := s.data, s.pos;
      SpliceNothing(d, p);
      ghost var fs: seq<Field> := [];
      fs := WriteWhen(s, name != [], NameField(name), d, p, fs);
      assert fs == When(v.name != [], NameField(v.name));
      fs := WriteWhen(s, hint != [], HintField(hint), d, p, fs);
      fs := WriteWhen(s, password != [], PasswordField(password), d, p, fs);
      fs := WriteWhen(s, |traps| > 0, TrapsField(traps), d, p, fs);
      fs := WriteWhen(s, |clones| > 0, ClonesField(clones), d, p, fs);
      fs := WriteWhen(s, |moves| > 0, MovesField(moves), d, p, fs);
      assert fs == FieldList(v);
    }

    // ----------------------------------------------------------------
    // Reading.
    // ----------------------------------------------------------------

    /**
     * LevelData::read: reads one record into this level. Strings read replace
     * the members; table entries read are appended to the tables already held.
     * Answers the number of bytes consumed; a failure reports the read's error.
     */
    method Read(s: Stream, clip: bool) returns (r: Result<nat>)
      requires Valid() && s.Valid()
      modifies this, grid.fg, grid.bg, s
      ensures Valid() && grid == old(grid) && s.Valid() && s.data == old(s.data)
      ensures match DecodeLevel(s.data, old(s.pos), clip, old(Value()))
        case Success(rd) => r == Success(rd.next - old(s.pos)) && s.pos == rd.next && Value() == rd.val
        case Failure(e) => r == Failure(e)
    {
      var levelBegin := s.Tell();
      var budget :- ReadPrelude(s, clip);
      var u :- ReadFields(s, budget, clip);
      var levelEnd := s.Tell();
      r := Success(levelEnd - levelBegin);
    }

    /**
     * The opening of read: the outer size word (stored mode), the head, and the
     * field-section word, which must equal what the size word leaves for the
     * fields; answers the field budget.
     */
    method ReadPrelude(s: Stream, clip: bool) returns (r: Result<int>)
      requires Valid() && s.Valid()
      modifies this, grid.fg, grid.bg, s
      ensures Valid() && grid == old(grid) && s.Valid() && s.data == old(s.data)
      ensures match DecodePrelude(s.data, old(s.pos), clip, old(Value()))
        case Success(pre) => r == Success(pre.budget) && s.pos == pre.next && Value() == pre.level
        case Failure(e) => r == Failure(e)
    {
      var dataSize: int := 0;
      if !clip {
        var size :- s.Read16();
        dataSize := size;
      }
      var used :- ReadHead(s);
      dataSize := dataSize - 6 - (used + 2) - 2;
      var word :- s.Read16();
      if clip {
        dataSize := word;
      } else if word != dataSize {
        return Failure(SizeMismatch);
      }
      r := Success(dataSize);
    }

    /** The three numbers, the map marker and the grid; answers the bytes the grid took. */
    method ReadHead(s: Stream) returns (r: Result<nat>)
      requires Valid() && s.Valid()
      modifies this, grid.fg, grid.bg, s
      ensures Valid() && grid == old(grid) && s.Valid() && s.data == old(s.data)
      ensures match DecodeHead(s.data, old(s.pos), old(Value()))
        case Success(rd) => r == Success(rd.next - old(s.pos) - 8) && s.pos == rd.next && Value() == rd.val
        case Failure(e) => r == Failure(e)
    {
      var u :- ReadNumbers(s);
      r := grid.Read(s);
    }

    /** The three numbers and the map marker. */
    method ReadNumbers(s: Stream) returns (r: Result<nat>)
      requires Valid() && s.Valid()
      modifies this, s
      ensures Valid() && grid == old(grid) && s.Valid() && s.data == old(s.data)
      ensures match DecodeNumbers(s.data, old(s.pos), old(Value()))
        case Success(rd) => r.Success? && s.pos == rd.next && Value() == rd.val
        case Failure(e) => r == Failure(e)
    {
      var num :- s.Read16();
      var tm :- s.Read16();
      var ch :- s.Read16();
      var marker :- s.Read16();
      if marker != 1 {
        return Failure(InvalidMapMarker);
      }
      levelNum, timer, chips := num, tm, ch;
      r := Success(8);
    }

    /** The field loop and the residual check after it. */
    method ReadFields(s: Stream, budget: int, clip: bool) returns (r: Result<nat>)
      requires Valid() && s.Valid()
      modifies this, s
      ensures Valid() && grid == old(grid) && s.Valid() && s.data == old(s.data)
      ensures match FinishLevel(DecodeFields(s.data, old(s.pos), budget, old(Value())), clip)
        case Success(rd) => r.Success? && s.pos == rd.next && Value() == rd.val
        case Failure(e) => r == Failure(e)
    {
      ghost var goal := FinishLevel(DecodeFields(s.data, s.pos, budget, Value()), clip);
      var dataSize := budget;
      while dataSize > 0
        invariant Valid() && grid == old(grid) && s.Valid() && s.data == old(s.data)
        invariant FinishLevel(DecodeFields(s.data, s.pos, dataSize, Value()), clip) == goal
        decreases dataSize
      {
        FieldsUnfold(s.data, s.pos, dataSize, Value());
        dataSize :- ReadRecord(s, dataSize);
      }
      if dataSize != 0 {
        return Failure(if clip then CorruptClipboardData else ChecksumMismatch);
      }
      r := Success(0);
    }

    /** One pass of the field loop: tag and size byte, the budget charged, then the payload. */
    method ReadRecord(s: Stream, budget: int) returns (r: Result<int>)
      requires Valid() && s.Valid()
      modifies this, s
      ensures Valid() && grid == old(grid) && s.Valid() && s.data == old(s.data)
      ensures match FieldStep(s.data, old(s.pos), budget, old(Value()))
        case Success(fr) => r == Success(fr.budget) && s.pos == fr.next && Value() == fr.level
        case Failure(e) => r == Failure(e)
    {
      var field :- s.Read8();
      var size :- s.Read8();
      var rest := budget - (size as int + 2);
      if rest < 0 {
        return Failure(TruncatedRecord);
      }
      var u :- ReadField(s, field, size);
      r := Success(rest);
    }

    /** One field's payload, dispatched on its tag. */
    method ReadField(s: Stream, tag: byte, size: byte) returns (r: Result<nat>)
      requires Valid() && s.Valid()
      modifies this, s
      ensures Valid() && grid == old(grid) && s.Valid() && s.data == old(s.data)
      ensures match DecodeField(s.data, old(s.pos), tag, size, old(Value()))
        case Success(rd) => r.Success? && s.pos == rd.next && Value() == rd.val
        case Failure(e) => r == Failure(e)
    {
      ghost var v := Value();
      if tag == FieldName {
        var str :- s.ReadString(size, false);
        name := str;
        assert Value() == v.(name := str);
      } else if tag == FieldHint {
        var str :- s.ReadString(size, false);
        hint := str;
        assert Value() == v.(hint := str);
      } else if tag == FieldPassword {
        var str :- s.ReadString(size, true);
        password := str;
        assert Value() == v.(password := str);
      } else if tag == FieldTraps {
        if size % 10 != 0 {
          return Failure(InvalidFieldSize);
        }
        var table :- ReadTraps(s, size / 10, traps);
        traps := table;
        assert Value() == v.(traps := table);
      } else if tag == FieldClones {
        if size % 8 != 0 {
          return Failure(InvalidFieldSize);
        }
        var table :- ReadClones(s, size / 8, clones);
        clones := table;
        assert Value() == v.(clones := table);
      } else if tag == FieldMoveList {
        if size % 2 != 0 {
          return Failure(InvalidFieldSize);
        }
        var table :- ReadMovers(s, size / 2, moves);
        moves := table;
        assert Value() == v.(moves := table);
      } else {
        return Failure(UnrecognizedField);
      }
      r := Success(size);
    }
  }

  /** `k` trap entries read into a copy of `acc`, one at a time in stream order. */
  method ReadTraps(s: Stream, k: nat, acc: seq<Trap>) returns (r: Result<seq<Trap>>)
    requires s.Valid()
    modifies s
    ensures s.Valid() && s.data == old(s.data)
    ensures match DecodeTraps(s.data, old(s.pos), k, acc)
      case Success(rd) => r == Success(rd.val) && s.pos == rd.next
      case Failure(e) => r == Failure(e)
  {
    var table := acc;
    var i := 0;
    while i < k
      invariant 0 <= i <= k && s.Valid() && s.data == old(s.data)
      invariant DecodeTraps(s.data, s.pos, k - i, table) == DecodeTraps(s.data, old(s.pos), k, acc)
    {
      var e :- ReadTrap(s);
      table := table + [e];
      i := i + 1;
    }
    r := Success(table);
  }

  /** `k` cloner entries read into a copy of `acc`, one at a time in stream order. */
  method ReadClones(s: Stream, k: nat, acc: seq<Clone>) returns (r: Result<seq<Clone>>)
    requires s.Valid()
    modifies s
    ensures s.Valid() && s.data == old(s.data)
    ensures match DecodeClones(s.data, old(s.pos), k, acc)
      case Success(rd) => r == Success(rd.val) && s.pos == rd.next
      case Failure(e) => r == Failure(e)
  {
    var table := acc;
    var i := 0;
    while i < k
      invariant 0 <= i <= k && s.Valid() && s.data == old(s.data)
      invariant DecodeClones(s.data, s.pos, k - i, table) == DecodeClones(s.data, old(s.pos), k, acc)
    {
      var e :- ReadClone(s);
      table := table + [e];
      i := i + 1;
    }
    r := Success(table);
  }

  /** `k` forced-move entries read into a copy of `acc`, one at a time in stream order. */
  method ReadMovers(s: Stream, k: nat, acc: seq<Point>) returns (r: Result<seq<Point>>)
    requires s.Valid()
    modifies s
    ensures s.Valid() && s.data == old(s.data)
    ensures match DecodeMovers(s.data, old(s.pos), k, acc)
      case Success(rd) => r == Success(rd.val) && s.pos == rd.next
      case Failure(e) => r == Failure(e)
  {
    var table := acc;
    var i := 0;
    while i < k
      invariant 0 <= i <= k && s.Valid() && s.data == old(s.data)
      invariant DecodeMovers(s.data, s.pos, k - i, table) == DecodeMovers(s.data, old(s.pos), k, acc)
    {
      var e :- ReadMover(s);
      table := table + [e];
      i := i + 1;
    }
    r := Success(table);
  }

  /**
   * The second half of write: with the bytes `w` written at `levelBegin`, seeks
   * back to each size word, patches in the byte count that follows it, and
   * returns to the end of the record.
   */
  method PatchSizes(s: Stream, clip: bool, levelBegin: nat, fieldBegin: nat, ghost d: seq<byte>, ghost w: seq<byte>)
    requires s.Valid() && levelBegin <= |d| && s.data == Splice(d, levelBegin, w) && s.pos == levelBegin + |w|
    requires levelBegin <= fieldBegin && fieldBegin + 2 <= levelBegin + |w|
    modifies s
    ensures s.Valid() && s.data == Splice(d, levelBegin, Patched(w, fieldBegin - levelBegin, clip))
    ensures s.pos == levelBegin + |w|
  {
    var levelEnd := s.Tell();
    ghost var u := w;
    if !clip {
      PatchWord(s, levelBegin, levelEnd - levelBegin - 2, d, levelBegin, w);
      u := w[..0] + LE16(|w| - 2) + w[2..];
    }
    PatchWord(s, fieldBegin, levelEnd - fieldBegin - 2, d, levelBegin, u);
    s.Seek(levelEnd);
  }

  /** Seeks back to `at` and overwrites the 16-bit word there, inside the bytes `w` written at `p`. */
  method PatchWord(s: Stream, at: nat, value: int, ghost d: seq<byte>, ghost p: nat, ghost w: seq<byte>)
    requires s.Valid() && p <= |d| && s.data == Splice(d, p, w) && p <= at && at + 2 <= p + |w|
    modifies s
    ensures s.Valid() && s.data == Splice(d, p, w[..at - p] + LE16(value) + w[at - p + 2..]) && s.pos == at + 2
  {
    s.Seek(at);
    s.Write16(value);
    SplicePatch(d, p, w, at - p, LE16(value));
  }

  /** One optional field of write: emitted when `c` holds, and the ghost list of emitted fields extended to match. */
  method WriteWhen(s: Stream, c: bool, f: Field, ghost d: seq<byte>, ghost p: nat, ghost fs: seq<Field>)
    returns (ghost fs': seq<Field>)
    requires s.Valid() && p <= |d| && s.data == Splice(d, p, FieldsBytes(fs)) && s.pos == p + |FieldsBytes(fs)|
    modifies s
    ensures fs' == fs + When(c, f)
    ensures s.Valid() && s.data == Splice(d, p, FieldsBytes(fs')) && s.pos == p + |FieldsBytes(fs')|
  {
    fs' := fs + When(c, f);
    if c {
      WriteField(s, f);
      SpliceAppend(d, p, FieldsBytes(fs), FieldBytes(f));
      FieldsBytesSnoc(fs, f);
    } else {
      assert fs' == fs;
    }
  }
}
