/**
 * One level record (LevelData): its header numbers, its grid, its optional
 * fields and link tables, and the byte layout LevelData::read and
 * LevelData::write agree on.
 *
 * A stored record is
 *   size word | level number | timer | chips | map marker 1 | both layers |
 *   field-section size word | fields
 * where the size word (absent in clipboard mode) counts the bytes after it,
 * and each field is tag byte, size byte, payload.
 */
module LevelFormat {
  import opened Bytes
  import opened Streams
  import opened Tiles
  import opened Links
  import opened Records

  // Field tags of the optional section.
  const FieldName: byte := 3
  const FieldTraps: byte := 4
  const FieldClones: byte := 5
  const FieldPassword: byte := 6
  const FieldHint: byte := 7
  const FieldMoveList: byte := 10

  /** One of the six tags the field loop understands. */
  predicate KnownTag(tag: byte) {
    tag == FieldName || tag == FieldTraps || tag == FieldClones
    || tag == FieldPassword || tag == FieldHint || tag == FieldMoveList
  }

  /** Everything a LevelData holds, as a value. */
  datatype LevelValue = LevelValue(
    levelNum: u16, timer: u16, chips: u16,
    fg: seq<Tile>, bg: seq<Tile>,
    name: string, hint: string, password: string,
    traps: seq<Trap>, clones: seq<Clone>, moves: seq<Point>)

  /** A newly constructed LevelData: zero numbers, zeroed grid, empty strings and tables. */
  function Fresh(): LevelValue {
    LevelValue(0, 0, 0, Zeros(), Zeros(), "", "", "", [], [], [])
  }

  // ------------------------------------------------------------------
  // Table entries on the stream.
  // ------------------------------------------------------------------

  /** A trap entry: button x, y, trap x, y (16 bits each) and a zero state word. */
  function TrapBytes(t: Trap): (r: seq<byte>)
    ensures |r| == 10
  {
    LE16(t.button.X) + LE16(t.button.Y) + LE16(t.trap.X) + LE16(t.trap.Y) + LE16(0)
  }

  /** A cloner entry: button x, y, machine x, y (16 bits each). */
  function CloneBytes(c: Clone): (r: seq<byte>)
    ensures |r| == 8
  {
    LE16(c.button.X) + LE16(c.button.Y) + LE16(c.clone.X) + LE16(c.clone.Y)
  }

  /** A forced-move entry: x and y, one byte each. */
  function MoverBytes(m: Point): (r: seq<byte>)
    ensures |r| == 2
  {
    [Low8(m.X), Low8(m.Y)]
  }

  function TrapsBytes(ts: seq<Trap>): (r: seq<byte>)
    ensures |r| == 10 * |ts|
  {
    if |ts| == 0 then [] else TrapBytes(ts[0]) + TrapsBytes(ts[1..])
  }

  function ClonesBytes(cs: seq<Clone>): (r: seq<byte>)
    ensures |r| == 8 * |cs|
  {
    if |cs| == 0 then [] else CloneBytes(cs[0]) + ClonesBytes(cs[1..])
  }

  function MoversBytes(ms: seq<Point>): (r: seq<byte>)
    ensures |r| == 2 * |ms|
  {
    if |ms| == 0 then [] else MoverBytes(ms[0]) + MoversBytes(ms[1..])
  }

  lemma {:induction false} TrapsBytesSnoc(ts: seq<Trap>, t: Trap)
    ensures TrapsBytes(ts + [t]) == TrapsBytes(ts) + TrapBytes(t)
  {
    if |ts| > 0 {
      assert (ts + [t])[1..] == ts[1..] + [t];
      TrapsBytesSnoc(ts[1..], t);
    } else {
      assert ts + [t] == [t];
    }
  }

  lemma {:induction false} ClonesBytesSnoc(cs: seq<Clone>, c: Clone)
    ensures ClonesBytes(cs + [c]) == ClonesBytes(cs) + CloneBytes(c)
  {
    if |cs| > 0 {
      assert (cs + [c])[1..] == cs[1..] + [c];
      ClonesBytesSnoc(cs[1..], c);
    } else {
      assert cs + [c] == [c];
    }
  }

  lemma {:induction false} MoversBytesSnoc(ms: seq<Point>, m: Point)
    ensures MoversBytes(ms + [m]) == MoversBytes(ms) + MoverBytes(m)
  {
    if |ms| > 0 {
      assert (ms + [m])[1..] == ms[1..] + [m];
      MoversBytesSnoc(ms[1..], m);
    } else {
      assert ms + [m] == [m];
    }
  }

  /** One trap entry as the read loop takes it. */
  function GetTrap(d: seq<byte>, p: nat): (r: Result<Read<Trap>>)
    ensures r.Success? <==> p + 10 <= |d|
    ensures r.Success? ==> r.value.next == p + 10
    ensures r.Failure? ==> r.error == EndOfStream
  {
    var buttonX :- Get16(d, p);
    var buttonY :- Get16(d, buttonX.next);
    var trapX :- Get16(d, buttonY.next);
    var trapY :- Get16(d, trapX.next);
    var state :- Get16(d, trapY.next);
    Success(Read(Trap(Point(buttonX.val, buttonY.val), Point(trapX.val, trapY.val)), state.next))
  }

  function GetClone(d: seq<byte>, p: nat): (r: Result<Read<Clone>>)
    ensures r.Success? <==> p + 8 <= |d|
    ensures r.Success? ==> r.value.next == p + 8
    ensures r.Failure? ==> r.error == EndOfStream
  {
    var buttonX :- Get16(d, p);
    var buttonY :- Get16(d, buttonX.next);
    var cloneX :- Get16(d, buttonY.next);
    var cloneY :- Get16(d, cloneX.next);
    Success(Read(Clone(Point(buttonX.val, buttonY.val), Point(cloneX.val, cloneY.val)), cloneY.next))
  }

  function GetMover(d: seq<byte>, p: nat): (r: Result<Read<Point>>)
    ensures r.Success? <==> p + 2 <= |d|
    ensures r.Success? ==> r.value.next == p + 2
    ensures r.Failure? ==> r.error == EndOfStream
  {
    var x :- Get8(d, p);
    var y :- Get8(d, x.next);
    Success(Read(Point(x.val, y.val), y.next))
  }

  /** `k` trap entries appended to `acc`. */
  function DecodeTraps(d: seq<byte>, p: nat, k: nat, acc: seq<Trap>): (r: Result<Read<seq<Trap>>>)
    ensures r.Success? <==> (k == 0 || p + 10 * k <= |d|)
    ensures r.Success? ==> r.value.next == p + 10 * k && |r.value.val| == |acc| + k && r.value.val[..|acc|] == acc
    ensures r.Failure? ==> r.error == EndOfStream
    decreases k
  {
    if k == 0 then Success(Read(acc, p))
    else
      var t :- GetTrap(d, p);
      DecodeTraps(d, t.next, k - 1, acc + [t.val])
  }

  function DecodeClones(d: seq<byte>, p: nat, k: nat, acc: seq<Clone>): (r: Result<Read<seq<Clone>>>)
    ensures r.Success? <==> (k == 0 || p + 8 * k <= |d|)
    ensures r.Success? ==> r.value.next == p + 8 * k && |r.value.val| == |acc| + k && r.value.val[..|acc|] == acc
    ensures r.Failure? ==> r.error == EndOfStream
    decreases k
  {
    if k == 0 then Success(Read(acc, p))
    else
      var c :- GetClone(d, p);
      DecodeClones(d, c.next, k - 1, acc + [c.val])
  }

  function DecodeMovers(d: seq<byte>, p: nat, k: nat, acc: seq<Point>): (r: Result<Read<seq<Point>>>)
    ensures r.Success? <==> (k == 0 || p + 2 * k <= |d|)
    ensures r.Success? ==> r.value.next == p + 2 * k && |r.value.val| == |acc| + k && r.value.val[..|acc|] == acc
    ensures r.Failure? ==> r.error == EndOfStream
    decreases k
  {
    if k == 0 then Success(Read(acc, p))
    else
      var m :- GetMover(d, p);
      DecodeMovers(d, m.next, k - 1, acc + [m.val])
  }

  /** A point both of whose coordinates survive a 16-bit (resp. 8-bit) store. */
  predicate Is16(q: Point) { 0 <= q.X < 0x1_0000 && 0 <= q.Y < 0x1_0000 }
  predicate Is8(q: Point) { 0 <= q.X < 0x100 && 0 <= q.Y < 0x100 }

  lemma TrapRoundTrip(d: seq<byte>, p: nat, t: Trap)
    requires Is16(t.button) && Is16(t.trap) && Holds(d, p, TrapBytes(t))
    ensures GetTrap(d, p) == Success(Read(t, p + 10))
  {
    var a, b, c, e, z := LE16(t.button.X), LE16(t.button.Y), LE16(t.trap.X), LE16(t.trap.Y), LE16(0);
    assert Holds(d, p, a) && Holds(d, p + 2, b) && Holds(d, p + 4, c) && Holds(d, p + 6, e) && Holds(d, p + 8, z) by {
      HoldsSplit(d, p, a + b + c + e, z);
      HoldsSplit(d, p, a + b + c, e);
      HoldsSplit(d, p, a + b, c);
      HoldsSplit(d, p, a, b);
    }
    Get16Word(d, p, t.button.X);
    Get16Word(d, p + 2, t.button.Y);
    Get16Word(d, p + 4, t.trap.X);
    Get16Word(d, p + 6, t.trap.Y);
    Get16Word(d, p + 8, 0);
  }

  lemma CloneRoundTrip(d: seq<byte>, p: nat, c: Clone)
    requires Is16(c.button) && Is16(c.clone) && Holds(d, p, CloneBytes(c))
    ensures GetClone(d, p) == Success(Read(c, p + 8))
  {
    var a, b, x, y := LE16(c.button.X), LE16(c.button.Y), LE16(c.clone.X), LE16(c.clone.Y);
    assert Holds(d, p, a) && Holds(d, p + 2, b) && Holds(d, p + 4, x) && Holds(d, p + 6, y) by {
      HoldsSplit(d, p, a + b + x, y);
      HoldsSplit(d, p, a + b, x);
      HoldsSplit(d, p, a, b);
    }
    Get16Word(d, p, c.button.X);
    Get16Word(d, p + 2, c.button.Y);
    Get16Word(d, p + 4, c.clone.X);
    Get16Word(d, p + 6, c.clone.Y);
  }

  lemma MoverRoundTrip(d: seq<byte>, p: nat, m: Point)
    requires Is8(m) && Holds(d, p, MoverBytes(m))
    ensures GetMover(d, p) == Success(Read(m, p + 2))
  {
    assert d[p] == MoverBytes(m)[0] && d[p + 1] == MoverBytes(m)[1];
  }

  lemma TrapsStep(d: seq<byte>, p: nat, k: nat, acc: seq<Trap>, t: Trap)
    requires k > 0 && GetTrap(d, p) == Success(Read(t, p + 10))
    ensures DecodeTraps(d, p, k, acc) == DecodeTraps(d, p + 10, k - 1, acc + [t])
  {
  }

  /** The first entry of a table's bytes decodes, and the rest of the table follows it. */
  lemma TrapsHead(d: seq<byte>, p: nat, ts: seq<Trap>)
    requires |ts| > 0
    requires forall t :: t in ts ==> Is16(t.button) && Is16(t.trap)
    requires Holds(d, p, TrapsBytes(ts))
    ensures GetTrap(d, p) == Success(Read(ts[0], p + 10))
    ensures Holds(d, p + 10, TrapsBytes(ts[1..]))
    ensures forall t :: t in ts[1..] ==> Is16(t.button) && Is16(t.trap)
  {
    var t, rest := ts[0], ts[1..];
    assert TrapsBytes(ts) == TrapBytes(t) + TrapsBytes(rest);
    assert t in ts;
    HoldsSplit(d, p, TrapBytes(t), TrapsBytes(rest));
    TrapRoundTrip(d, p, t);
    assert forall u :: u in rest ==> u in ts;
  }

  lemma {:induction false} TrapsRoundTrip(d: seq<byte>, p: nat, ts: seq<Trap>, acc: seq<Trap>)
    requires forall t :: t in ts ==> Is16(t.button) && Is16(t.trap)
    requires Holds(d, p, TrapsBytes(ts))
    ensures Gives(DecodeTraps(d, p, |ts|, acc), acc + ts, p + 10 * |ts|)
    decreases |ts|
  {
    if |ts| == 0 {
      assert acc + ts == acc;
    } else {
      var r := DecodeTraps(d, p + 10, |ts| - 1, acc + [ts[0]]);
      assert Gives(r, acc + [ts[0]] + ts[1..], p + 10 + 10 * (|ts| - 1)) by {
        TrapsHead(d, p, ts);
        TrapsRoundTrip(d, p + 10, ts[1..], acc + [ts[0]]);
      }
      assert DecodeTraps(d, p, |ts|, acc) == r by {
        TrapsHead(d, p, ts);
        TrapsStep(d, p, |ts|, acc, ts[0]);
      }
      assert acc + [ts[0]] + ts[1..] == acc + ts;
      GivesTransfer(DecodeTraps(d, p, |ts|, acc), r, acc + ts, acc + [ts[0]] + ts[1..], p + 10 * |ts|, p + 10 + 10 * (|ts| - 1));
    }
  }

  lemma ClonesStep(d: seq<byte>, p: nat, k: nat, acc: seq<Clone>, c: Clone)
    requires k > 0 && GetClone(d, p) == Success(Read(c, p + 8))
    ensures DecodeClones(d, p, k, acc) == DecodeClones(d, p + 8, k - 1, acc + [c])
  {
  }

  /** The first entry of a table's bytes decodes, and the rest of the table follows it. */
  lemma ClonesHead(d: seq<byte>, p: nat, cs: seq<Clone>)
    requires |cs| > 0
    requires forall c :: c in cs ==> Is16(c.button) && Is16(c.clone)
    requires Holds(d, p, ClonesBytes(cs))
    ensures GetClone(d, p) == Success(Read(cs[0], p + 8))
    ensures Holds(d, p + 8, ClonesBytes(cs[1..]))
    ensures forall c :: c in cs[1..] ==> Is16(c.button) && Is16(c.clone)
  {
    var c, rest := cs[0], cs[1..];
    assert ClonesBytes(cs) == CloneBytes(c) + ClonesBytes(rest);
    assert c in cs;
    HoldsSplit(d, p, CloneBytes(c), ClonesBytes(rest));
    CloneRoundTrip(d, p, c);
    assert forall u :: u in rest ==> u in cs;
  }

  lemma {:induction false} ClonesRoundTrip(d: seq<byte>, p: nat, cs: seq<Clone>, acc: seq<Clone>)
    requires forall c :: c in cs ==> Is16(c.button) && Is16(c.clone)
    requires Holds(d, p, ClonesBytes(cs))
    ensures Gives(DecodeClones(d, p, |cs|, acc), acc + cs, p + 8 * |cs|)
    decreases |cs|
  {
    if |cs| == 0 {
      assert acc + cs == acc;
    } else {
      var r := DecodeClones(d, p + 8, |cs| - 1, acc + [cs[0]]);
      assert Gives(r, acc + [cs[0]] + cs[1..], p + 8 + 8 * (|cs| - 1)) by {
        ClonesHead(d, p, cs);
        ClonesRoundTrip(d, p + 8, cs[1..], acc + [cs[0]]);
      }
      assert DecodeClones(d, p, |cs|, acc) == r by {
        ClonesHead(d, p, cs);
        ClonesStep(d, p, |cs|, acc, cs[0]);
      }
      assert acc + [cs[0]] + cs[1..] == acc + cs;
      GivesTransfer(DecodeClones(d, p, |cs|, acc), r, acc + cs, acc + [cs[0]] + cs[1..], p + 8 * |cs|, p + 8 + 8 * (|cs| - 1));
    }
  }

  lemma MoversStep(d: seq<byte>, p: nat, k: nat, acc: seq<Point>, m: Point)
    requires k > 0 && GetMover(d, p) == Success(Read(m, p + 2))
    ensures DecodeMovers(d, p, k, acc) == DecodeMovers(d, p + 2, k - 1, acc + [m])
  {
  }

  /** `mb` is the movement-table encoder, as an opaque function of the table. */
  ghost predicate IsMoversBytes(mb: seq<Point> -> seq<byte>) {
    forall ms {:trigger MoversBytes(ms)} :: mb(ms) == MoversBytes(ms)
  }

  /** The first entry of a table's bytes decodes, and the rest of the table follows it. */
  lemma MoversHead(d: seq<byte>, p: nat, ms: seq<Point>, mb: seq<Point> -> seq<byte>)
    requires IsMoversBytes(mb) && |ms| > 0
    requires forall m :: m in ms ==> Is8(m)
    requires Holds(d, p, mb(ms))
    ensures GetMover(d, p) == Success(Read(ms[0], p + 2))
    ensures Holds(d, p + 2, mb(ms[1..]))
    ensures forall m :: m in ms[1..] ==> Is8(m)
  {
    var m, rest := ms[0], ms[1..];
    MoversCons(ms, mb);
    HoldsSplit(d, p, MoverBytes(m), mb(rest));
    assert m in ms;
    MoverRoundTrip(d, p, m);
    assert forall u :: u in rest ==> u in ms;
  }

  lemma MoversCons(ms: seq<Point>, mb: seq<Point> -> seq<byte>)
    requires IsMoversBytes(mb) && |ms| > 0
    ensures mb(ms) == MoverBytes(ms[0]) + mb(ms[1..])
  {
    assert mb(ms) == MoversBytes(ms);
    assert mb(ms[1..]) == MoversBytes(ms[1..]);
  }

  lemma MoversRoundTrip(d: seq<byte>, p: nat, ms: seq<Point>, acc: seq<Point>)
    requires forall m :: m in ms ==> Is8(m)
    requires Holds(d, p, MoversBytes(ms))
    ensures Gives(DecodeMovers(d, p, |ms|, acc), acc + ms, p + 2 * |ms|)
  {
    MoversDecode(d, p, ms, acc, MoversBytes, p + 2 * |ms|);
  }

  /** MoversRoundTrip, with the table encoder seen as `mb` and the end of the table as `e`. */
  lemma {:induction false} MoversDecode(d: seq<byte>, p: nat, ms: seq<Point>, acc: seq<Point>,
                                        mb: seq<Point> -> seq<byte>, e: nat)
    requires IsMoversBytes(mb) && forall m :: m in ms ==> Is8(m)
    requires Holds(d, p, mb(ms)) && e == p + 2 * |ms|
    ensures Gives(DecodeMovers(d, p, |ms|, acc), acc + ms, e)
    decreases |ms|
  {
    if |ms| == 0 {
      assert acc + ms == acc;
    } else {
      MoversHead(d, p, ms, mb);
      MoversDecode(d, p + 2, ms[1..], acc + [ms[0]], mb, e);
      MoversStep(d, p, |ms|, acc, ms[0]);
      assert acc + [ms[0]] + ms[1..] == acc + ms;
    }
  }

  // ------------------------------------------------------------------
  // The optional field section.
  // ------------------------------------------------------------------

  datatype Field =
    | NameField(s: string)
    | HintField(s: string)
    | PasswordField(s: string)
    | TrapsField(traps: seq<Trap>)
    | ClonesField(clones: seq<Clone>)
    | MovesField(moves: seq<Point>)

  function Tag(f: Field): byte {
    match f
    case NameField(_) => FieldName
    case HintField(_) => FieldHint
    case PasswordField(_) => FieldPassword
    case TrapsField(_) => FieldTraps
    case ClonesField(_) => FieldClones
    case MovesField(_) => FieldMoveList
  }

  /** The payload of a field; only the password is obfuscated. */
  function Payload(f: Field): seq<byte> {
    match f
    case NameField(s) => StringBytes(s, false)
    case HintField(s) => StringBytes(s, false)
    case PasswordField(s) => StringBytes(s, true)
    case TrapsField(ts) => TrapsBytes(ts)
    case ClonesField(cs) => ClonesBytes(cs)
    case MovesField(ms) => MoversBytes(ms)
  }

  /** Tag byte, size byte (the payload length truncated to 8 bits), payload. */
  function FieldBytes(f: Field): (r: seq<byte>)
    ensures |r| == 2 + |Payload(f)|
  {
    [Tag(f), Low8(|Payload(f)|)] + Payload(f)
  }

  function FieldsBytes(fs: seq<Field>): seq<byte> {
    if |fs| == 0 then [] else FieldBytes(fs[0]) + FieldsBytes(fs[1..])
  }

  lemma {:induction false} FieldsBytesSnoc(fs: seq<Field>, f: Field)
    ensures FieldsBytes(fs + [f]) == FieldsBytes(fs) + FieldBytes(f)
    decreases |fs|
  {
    if |fs| > 0 {
      assert (fs + [f])[1..] == fs[1..] + [f];
      FieldsBytesSnoc(fs[1..], f);
    } else {
      assert fs + [f] == [f];
    }
  }

  function When(c: bool, f: Field): seq<Field> { if c then [f] else [] }

  /** The fields write emits: only the non-empty ones, always in this order. */
  function FieldList(v: LevelValue): seq<Field> {
    When(v.name != [], NameField(v.name))
    + When(v.hint != [], HintField(v.hint))
    + When(v.password != [], PasswordField(v.password))
    + When(|v.traps| > 0, TrapsField(v.traps))
    + When(|v.clones| > 0, ClonesField(v.clones))
    + When(|v.moves| > 0, MovesField(v.moves))
  }

  /** What reading a field does to the level: strings are replaced, table entries appended. */
  function Apply(v: LevelValue, f: Field): LevelValue {
    match f
    case NameField(s) => v.(name := s)
    case HintField(s) => v.(hint := s)
    case PasswordField(s) => v.(password := s)
    case TrapsField(ts) => v.(traps := v.traps + ts)
    case ClonesField(cs) => v.(clones := v.clones + cs)
    case MovesField(ms) => v.(moves := v.moves + ms)
  }

  function ApplyAll(v: LevelValue, fs: seq<Field>): LevelValue
    decreases |fs|
  {
    if |fs| == 0 then v else ApplyAll(Apply(v, fs[0]), fs[1..])
  }

  // ------------------------------------------------------------------
  // Encoding (LevelData::write).
  // ------------------------------------------------------------------

  /** Everything after the outer size word. */
  function Body(v: LevelValue): seq<byte> {
    var fields := FieldsBytes(FieldList(v));
    HeadWords(v) + LayersBytes(v.fg, v.bg) + LE16(|fields|) + fields
  }

  /** The clipboard form omits the outer size word. */
  function EncodeLevel(v: LevelValue, clip: bool): seq<byte> {
    if clip then Body(v) else LE16(|Body(v)|) + Body(v)
  }

  // ------------------------------------------------------------------
  // Decoding (LevelData::read).
  // ------------------------------------------------------------------

  /** The three numbers and the map marker, which must be 1. */
  function DecodeNumbers(d: seq<byte>, p: nat, v: LevelValue): (r: Result<Read<LevelValue>>)
    ensures r.Success? ==> r.value.next == p + 8 <= |d|
    ensures r.Failure? ==> r.error == EndOfStream || r.error == InvalidMapMarker
  {
    var num :- Get16(d, p);
    var timer :- Get16(d, num.next);
    var chips :- Get16(d, timer.next);
    var marker :- Get16(d, chips.next);
    if marker.val != 1 then Failure(InvalidMapMarker)
    else Success(Read(v.(levelNum := num.val, timer := timer.val, chips := chips.val), marker.next))
  }

  /** The three numbers, the map marker and both layers. */
  function DecodeHead(d: seq<byte>, p: nat, v: LevelValue): (r: Result<Read<LevelValue>>)
    ensures r.Success? ==> p + 8 <= r.value.next <= |d|
    ensures r.Failure? ==> r.error == EndOfStream || r.error == InvalidMapMarker || r.error == InvalidRun
  {
    var nums :- DecodeNumbers(d, p, v);
    var layers :- DecodeLayers(d, nums.next);
    Success(Read(nums.val.(fg := layers.fg, bg := layers.bg), layers.next))
  }

  /** One field's payload, given its tag and size byte. */
  function DecodeField(d: seq<byte>, p: nat, tag: byte, size: byte, v: LevelValue): (r: Result<Read<LevelValue>>)
    ensures r.Success? ==> r.value.next == p + size
    ensures r.Failure? ==> r.error == EndOfStream || r.error == InvalidFieldSize || r.error == UnrecognizedField
  {
    if tag == FieldName then
      var s :- GetString(d, p, size, false);
      Success(Read(v.(name := s.val), s.next))
    else if tag == FieldHint then
      var s :- GetString(d, p, size, false);
      Success(Read(v.(hint := s.val), s.next))
    else if tag == FieldPassword then
      var s :- GetString(d, p, size, true);
      Success(Read(v.(password := s.val), s.next))
    else if tag == FieldTraps then
      if size % 10 != 0 then Failure(InvalidFieldSize)
      else
        var ts :- DecodeTraps(d, p, size / 10, v.traps);
        Success(Read(v.(traps := ts.val), ts.next))
    else if tag == FieldClones then
      if size % 8 != 0 then Failure(InvalidFieldSize)
      else
        var cs :- DecodeClones(d, p, size / 8, v.clones);
        Success(Read(v.(clones := cs.val), cs.next))
    else if tag == FieldMoveList then
      if size % 2 != 0 then Failure(InvalidFieldSize)
      else
        var ms :- DecodeMovers(d, p, size / 2, v.moves);
        Success(Read(v.(moves := ms.val), ms.next))
    else Failure(UnrecognizedField)
  }

  /** The state of the field loop when it exits: the level, the position, the budget left. */
  datatype FieldsRead = FieldsRead(level: LevelValue, next: nat, budget: int)

  /**
   * The field loop: while budget remains, take a tag and a size byte, charge
   * size + 2 against the budget (failing if it would go negative), and read
   * the payload.
   */
  function DecodeFields(d: seq<byte>, p: nat, budget: int, v: LevelValue): (r: Result<FieldsRead>)
    ensures r.Success? ==> r.value.budget <= 0
    ensures r.Success? ==> p <= r.value.next
    ensures r.Failure? ==> r.error == EndOfStream || r.error == TruncatedRecord
                           || r.error == InvalidFieldSize || r.error == UnrecognizedField
    decreases if budget > 0 then budget else 0
  {
    if budget <= 0 then Success(FieldsRead(v, p, budget))
    else
      var tag :- Get8(d, p);
      var size :- Get8(d, tag.next);
      var rest := budget - (size.val as int + 2);
      if rest < 0 then Failure(TruncatedRecord)
      else
        var f :- DecodeField(d, size.next, tag.val, size.val, v);
        DecodeFields(d, f.next, rest, f.val)
  }

  /** One pass of the field loop: the record at `p` charged against `budget` and read into `v`. */
  function FieldStep(d: seq<byte>, p: nat, budget: int, v: LevelValue): (r: Result<FieldsRead>)
    ensures r.Success? ==> 0 <= r.value.budget < budget
    ensures r.Success? ==> p + 2 <= r.value.next
  {
    var tag :- Get8(d, p);
    var size :- Get8(d, tag.next);
    var rest := budget - (size.val as int + 2);
    if rest < 0 then Failure(TruncatedRecord)
    else
      var f :- DecodeField(d, size.next, tag.val, size.val, v);
      Success(FieldsRead(f.val, f.next, rest))
  }

  /** While budget remains, the loop is one pass and then the loop again. */
  lemma FieldsUnfold(d: seq<byte>, p: nat, budget: int, v: LevelValue)
    requires budget > 0
    ensures DecodeFields(d, p, budget, v) == match FieldStep(d, p, budget, v)
      case Success(fr) => DecodeFields(d, fr.next, fr.budget, fr.level)
      case Failure(e) => Failure(e)
  {
  }

  /** The check after the loop: a nonzero residual is a checksum (or clipboard) error. */
  function FinishLevel(f: Result<FieldsRead>, clip: bool): Result<Read<LevelValue>> {
    var fr :- f;
    if fr.budget != 0 then Failure(if clip then CorruptClipboardData else ChecksumMismatch)
    else Success(Read(fr.level, fr.next))
  }

  /**
   * A whole record read into `v`. In stored mode the budget is the size word
   * minus the bytes already consumed and the field-section word must equal
   * it; in clipboard mode the field-section word is the budget.
   */
  function DecodeLevel(d: seq<byte>, p: nat, clip: bool, v: LevelValue): (r: Result<Read<LevelValue>>)
    ensures r.Success? ==> p + 10 <= r.value.next
    ensures r.Failure? ==> r.error != InvalidHeader
  {
    var pre :- DecodePrelude(d, p, clip, v);
    FinishLevel(DecodeFields(d, pre.next, pre.budget, pre.level), clip)
  }

  /** Everything before the field loop: the level after its head, where the fields start, and their budget. */
  function DecodePrelude(d: seq<byte>, p: nat, clip: bool, v: LevelValue): (r: Result<FieldsRead>)
    ensures r.Success? ==> p + 10 <= r.value.next
    ensures r.Failure? ==> r.error != InvalidHeader
  {
    var size :- if clip then Success(Read(0, p)) else Get16(d, p);
    var head :- DecodeHead(d, size.next, v);
    var budget := size.val - (head.next - size.next) - 2;
    var word :- Get16(d, head.next);
    if !clip && word.val != budget then Failure(SizeMismatch)
    else Success(FieldsRead(head.val, word.next, if clip then word.val else budget))
  }

  // ------------------------------------------------------------------
  // The budget makes the residual check unreachable.
  // ------------------------------------------------------------------

  /** The loop charges each field against the budget and stops before it would go negative, so it ends at exactly zero. */
  lemma {:induction false} FieldsEndAtZero(d: seq<byte>, p: nat, budget: int, v: LevelValue)
    requires budget >= 0 && DecodeFields(d, p, budget, v).Success?
    ensures DecodeFields(d, p, budget, v).value.budget == 0
    decreases budget
  {
    if budget > 0 {
      var tag := Get8(d, p).value;
      var size := Get8(d, tag.next).value;
      var f := DecodeField(d, size.next, tag.val, size.val, v).value;
      FieldsEndAtZero(d, f.next, budget - (size.val as int + 2), f.val);
    }
  }

  /** After the field loop, the residual check fails only on a budget that started negative. */
  lemma FinishNeverResidual(d: seq<byte>, p: nat, budget: int, v: LevelValue, clip: bool)
    requires budget >= 0
    ensures FinishLevel(DecodeFields(d, p, budget, v), clip) != Failure(ChecksumMismatch)
    ensures FinishLevel(DecodeFields(d, p, budget, v), clip) != Failure(CorruptClipboardData)
  {
    if DecodeFields(d, p, budget, v).Success? {
      FieldsEndAtZero(d, p, budget, v);
    }
  }

  /** LevelData::read never reports a checksum or clipboard-corruption error. */
  lemma ResidualCheckUnreachable(d: seq<byte>, p: nat, clip: bool, v: LevelValue)
    ensures DecodeLevel(d, p, clip, v) != Failure(ChecksumMismatch)
    ensures DecodeLevel(d, p, clip, v) != Failure(CorruptClipboardData)
  {
    var size := if clip then Success(Read(0, p)) else Get16(d, p);
    if size.Success? {
      var head := DecodeHead(d, size.value.next, v);
      if head.Success? {
        var word := Get16(d, head.value.next);
        if word.Success? {
          FinishNeverResidual(d, word.value.next, word.value.val, head.value.val, clip);
        }
      }
    }
  }

  // ------------------------------------------------------------------
  // The budget makes a short record fail.
  // ------------------------------------------------------------------

  /** A field payload that reads lies inside the stream. */
  lemma FieldInside(d: seq<byte>, p: nat, tag: byte, size: byte, v: LevelValue)
    requires p <= |d| && DecodeField(d, p, tag, size, v).Success?
    ensures DecodeField(d, p, tag, size, v).value.next <= |d|
  {
  }

  /** A field loop that reads from a non-negative budget consumes exactly that budget, all of it inside the stream. */
  lemma {:induction false} FieldsConsumeBudget(d: seq<byte>, p: nat, budget: int, v: LevelValue)
    requires 0 <= budget && p <= |d| && DecodeFields(d, p, budget, v).Success?
    ensures DecodeFields(d, p, budget, v).value.next == p + budget <= |d|
    decreases budget
  {
    if budget > 0 {
      FieldsUnfold(d, p, budget, v);
      StepInside(d, p, budget, v);
      var fr := FieldStep(d, p, budget, v).value;
      FieldsConsumeBudget(d, fr.next, fr.budget, fr.level);
    }
  }

  /** One pass of the field loop that reads moves on by exactly the budget it spends, inside the stream. */
  lemma StepInside(d: seq<byte>, p: nat, budget: int, v: LevelValue)
    requires p <= |d| && FieldStep(d, p, budget, v).Success?
    ensures FieldStep(d, p, budget, v).value.next == p + budget - FieldStep(d, p, budget, v).value.budget <= |d|
  {
    var tag := Get8(d, p).value;
    var size := Get8(d, tag.next).value;
    FieldInside(d, size.next, tag.val, size.val, v);
  }

  /** A record that reads ends exactly where its prelude's budget says, inside the stream. */
  lemma RecordEndsAsDeclared(d: seq<byte>, p: nat, clip: bool, v: LevelValue)
    requires DecodeLevel(d, p, clip, v).Success?
    ensures DecodePrelude(d, p, clip, v).Success?
    ensures DecodeLevel(d, p, clip, v).value.next
            == DecodePrelude(d, p, clip, v).value.next + DecodePrelude(d, p, clip, v).value.budget <= |d|
  {
    var pre := DecodePrelude(d, p, clip, v).value;
    FieldsConsumeBudget(d, pre.next, pre.budget, pre.level);
  }

  /** In stored mode a record that reads spans exactly its size word and the bytes that word counts. */
  lemma StoredEndsAsDeclared(d: seq<byte>, p: nat, v: LevelValue)
    ensures DecodeLevel(d, p, false, v).Success? ==>
              Get16(d, p).Success? && DecodeLevel(d, p, false, v).value.next == p + 2 + Get16(d, p).value.val <= |d|
  {
    if DecodeLevel(d, p, false, v).Success? {
      RecordEndsAsDeclared(d, p, false, v);
    }
  }

  /** In clipboard mode a record that reads ends exactly where its field-section word says. */
  lemma ClipEndsAsDeclared(d: seq<byte>, p: nat, v: LevelValue)
    ensures DecodeLevel(d, p, true, v).Success? ==>
              DecodeHead(d, p, v).Success? && Get16(d, DecodeHead(d, p, v).value.next).Success?
              && DecodeLevel(d, p, true, v).value.next
                 == DecodeHead(d, p, v).value.next + 2 + Get16(d, DecodeHead(d, p, v).value.next).value.val <= |d|
  {
    if DecodeLevel(d, p, true, v).Success? {
      RecordEndsAsDeclared(d, p, true, v);
    }
  }

  /** `e` with the byte at index `k` removed. */
  function Without(e: seq<byte>, k: nat): (r: seq<byte>)
    requires k < |e|
    ensures |r| == |e| - 1
    ensures forall i :: 0 <= i < k ==> r[i] == e[i]
    ensures forall i :: k <= i < |r| ==> r[i] == e[i + 1]
  {
    e[..k] + e[k + 1..]
  }

  /**
   * Corruption detection: the stored record written for `v`, with any one
   * byte after its size word removed and the stream ending there, does not read.
   */
  lemma ShortRecordFails(a: seq<byte>, v: LevelValue, k: nat)
    requires Fits(v) && 2 <= k < |EncodeLevel(v, false)|
    ensures DecodeLevel(a + Without(EncodeLevel(v, false), k), |a|, false, Fresh()).Failure?
  {
    var e := EncodeLevel(v, false);
    var d := a + Without(e, k);
    var n := |Body(v)|;
    BodyFits(v);
    assert e == LE16(n) + Body(v);
    assert Holds(d, |a|, LE16(n)) by {
      assert d[|a|] == e[0] && d[|a| + 1] == e[1];
      assert d[|a|..|a| + 2] == [e[0], e[1]];
    }
    Get16Word(d, |a|, n);
    StoredEndsAsDeclared(d, |a|, Fresh());
  }

  // ------------------------------------------------------------------
  // Each malformed input is refused with its own error.
  // ------------------------------------------------------------------

  /** A field with an unknown tag, or a table whose size is not a whole number of entries, fails with that error. */
  lemma FieldRefused(d: seq<byte>, p: nat, tag: byte, size: byte, v: LevelValue)
    ensures !KnownTag(tag) ==> DecodeField(d, p, tag, size, v) == Failure(UnrecognizedField)
    ensures tag == FieldTraps && size % 10 != 0 ==> DecodeField(d, p, tag, size, v) == Failure(InvalidFieldSize)
    ensures tag == FieldClones && size % 8 != 0 ==> DecodeField(d, p, tag, size, v) == Failure(InvalidFieldSize)
    ensures tag == FieldMoveList && size % 2 != 0 ==> DecodeField(d, p, tag, size, v) == Failure(InvalidFieldSize)
  {
  }

  /**
   * While budget remains, the field loop refuses a record whose tag and size
   * overrun the budget, and then a record with an unknown tag or a bad table
   * size, each with its own error.
   */
  lemma FieldsRefused(d: seq<byte>, p: nat, budget: int, v: LevelValue)
    requires 0 < budget && p + 2 <= |d|
    ensures d[p + 1] as int + 2 > budget ==> DecodeFields(d, p, budget, v) == Failure(TruncatedRecord)
    ensures d[p + 1] as int + 2 <= budget && !KnownTag(d[p])
            ==> DecodeFields(d, p, budget, v) == Failure(UnrecognizedField)
    ensures d[p + 1] as int + 2 <= budget && d[p] == FieldTraps && d[p + 1] % 10 != 0
            ==> DecodeFields(d, p, budget, v) == Failure(InvalidFieldSize)
    ensures d[p + 1] as int + 2 <= budget && d[p] == FieldClones && d[p + 1] % 8 != 0
            ==> DecodeFields(d, p, budget, v) == Failure(InvalidFieldSize)
    ensures d[p + 1] as int + 2 <= budget && d[p] == FieldMoveList && d[p + 1] % 2 != 0
            ==> DecodeFields(d, p, budget, v) == Failure(InvalidFieldSize)
  {
    FieldRefused(d, p + 2, d[p], d[p + 1], v);
  }

  /** A failing field loop fails the record with the same error, in either mode. */
  lemma FieldErrorSurfaces(d: seq<byte>, p: nat, clip: bool, v: LevelValue)
    requires DecodePrelude(d, p, clip, v).Success?
    ensures var pre := DecodePrelude(d, p, clip, v).value;
      DecodeFields(d, pre.next, pre.budget, pre.level).Failure? ==>
        DecodeLevel(d, p, clip, v) == Failure(DecodeFields(d, pre.next, pre.budget, pre.level).error)
  {
  }

  /** A record whose map marker is not 1 fails with that error, in either mode. */
  lemma MarkerRefused(d: seq<byte>, p: nat, clip: bool, v: LevelValue)
    requires (if clip then p + 8 else p + 10) <= |d|
    requires Get16(d, if clip then p + 6 else p + 8).value.val != 1
    ensures DecodeLevel(d, p, clip, v) == Failure(InvalidMapMarker)
  {
  }

  /**
   * A stored record whose field-section word differs from the bytes its size
   * word leaves after the head fails with a size mismatch.
   */
  lemma SizeWordRefused(d: seq<byte>, p: nat, v: LevelValue)
    requires Get16(d, p).Success? && DecodeHead(d, p + 2, v).Success?
    requires Get16(d, DecodeHead(d, p + 2, v).value.next).Success?
    requires Get16(d, DecodeHead(d, p + 2, v).value.next).value.val
             != Get16(d, p).value.val - (DecodeHead(d, p + 2, v).value.next - (p + 2)) - 2
    ensures DecodeLevel(d, p, false, v) == Failure(SizeMismatch)
  {
  }

  // ------------------------------------------------------------------
  // Round trip: what write emits, read recovers.
  // ------------------------------------------------------------------

  /** Each field's length fits its size byte, and each coordinate its stored width. */
  predicate FieldFits(f: Field) {
    match f
    case NameField(s) => |s| <= 254 && Storable(s, false)
    case HintField(s) => |s| <= 254 && Storable(s, false)
    case PasswordField(s) => |s| <= 254 && Storable(s, true)
    case TrapsField(ts) => |ts| <= 25 && forall t :: t in ts ==> Is16(t.button) && Is16(t.trap)
    case ClonesField(cs) => |cs| <= 31 && forall c :: c in cs ==> Is16(c.button) && Is16(c.clone)
    case MovesField(ms) => |ms| <= 127 && forall m :: m in ms ==> Is8(m)
  }

  predicate AllFit(fs: seq<Field>) {
    forall f :: f in fs ==> FieldFits(f)
  }

  /** A level write can store and read back: full layers, and every field within its limits. */
  predicate Fits(v: LevelValue) {
    |v.fg| == Cells && |v.bg| == Cells
    && FieldFits(NameField(v.name)) && FieldFits(HintField(v.hint)) && FieldFits(PasswordField(v.password))
    && FieldFits(TrapsField(v.traps)) && FieldFits(ClonesField(v.clones)) && FieldFits(MovesField(v.moves))
  }

  lemma PayloadFits(f: Field)
    requires FieldFits(f)
    ensures |Payload(f)| <= 0xFF
  {
  }

  lemma FieldRoundTrip(d: seq<byte>, p: nat, f: Field, w: LevelValue, n: nat)
    requires FieldFits(f) && Holds(d, p, Payload(f)) && n == |Payload(f)|
    ensures n <= 0xFF
    ensures Gives(DecodeField(d, p, Tag(f), n, w), Apply(w, f), p + n)
  {
    match f
    case NameField(s) => StringRoundTrip(d, p, s, false);
    case HintField(s) => StringRoundTrip(d, p, s, false);
    case PasswordField(s) => StringRoundTrip(d, p, s, true);
    case TrapsField(ts) =>
      assert 10 * |ts| / 10 == |ts|;
      TrapsRoundTrip(d, p, ts, w.traps);
    case ClonesField(cs) =>
      assert 8 * |cs| / 8 == |cs|;
      ClonesRoundTrip(d, p, cs, w.clones);
    case MovesField(ms) =>
      assert 2 * |ms| / 2 == |ms|;
      MoversRoundTrip(d, p, ms, w.moves);
  }

  /** A window holding a record (tag, size, payload) and more reads back the tag and size, and holds the rest. */
  lemma RecordHead(d: seq<byte>, p: nat, tag: byte, n: nat, payload: seq<byte>, more: seq<byte>)
    requires n == |payload| <= 0xFF && Holds(d, p, [tag, Low8(n)] + payload + more)
    ensures Get8(d, p) == Success(Read(tag, p + 1)) && Get8(d, p + 1) == Success(Read(n, p + 2))
    ensures Holds(d, p + 2, payload) && Holds(d, p + 2 + n, more)
  {
    Low8Keeps(n);
    HoldsSplit(d, p, [tag, Low8(n)] + payload, more);
    HoldsSplit(d, p, [tag, Low8(n)], payload);
    assert d[p] == d[p..p + 2][0];
    assert d[p + 1] == d[p..p + 2][1];
  }

  lemma FieldsStep(d: seq<byte>, p: nat, budget: int, w: LevelValue, tag: byte, size: byte, w': LevelValue,
                   q: nat, rest: int)
    requires q == p + 2 + size as int && rest == budget - (size as int + 2)
    requires budget > 0 && rest >= 0
    requires Get8(d, p) == Success(Read(tag, p + 1)) && Get8(d, p + 1) == Success(Read(size, p + 2))
    requires Gives(DecodeField(d, p + 2, tag, size, w), w', q)
    ensures DecodeFields(d, p, budget, w) == DecodeFields(d, q, rest, w')
  {
  }

  lemma AllFitHead(fs: seq<Field>)
    requires |fs| > 0 && AllFit(fs)
    ensures FieldFits(fs[0]) && AllFit(fs[1..])
  {
    assert fs[0] in fs;
    forall g | g in fs[1..] ensures FieldFits(g) { assert g in fs; }
  }

  /** A record that holds `f` at `p` is decoded as `f` by one pass of the field loop. */
  lemma RecordStep(d: seq<byte>, p: nat, f: Field, w: LevelValue, n: nat, budget: int, rest: int)
    requires FieldFits(f) && n == |Payload(f)| && budget > 0 && rest >= 0 && rest == budget - (n + 2)
    requires Get8(d, p) == Success(Read(Tag(f), p + 1)) && Get8(d, p + 1) == Success(Read(n, p + 2))
    requires Holds(d, p + 2, Payload(f))
    ensures DecodeFields(d, p, budget, w) == DecodeFields(d, p + 2 + n, rest, Apply(w, f))
  {
    FieldRoundTrip(d, p + 2, f, w, n);
    FieldsStep(d, p, budget, w, Tag(f), n, Apply(w, f), p + 2 + n, rest);
  }

  /**
   * The bytes of each field record, as an opaque function: the section proofs
   * below see only that it is the record layout, and only where they ask.
   */
  ghost predicate IsFieldBytes(fb: Field -> seq<byte>) {
    forall f {:trigger FieldBytes(f)} :: fb(f) == FieldBytes(f)
  }

  /** The field section is its records back to back. */
  lemma {:induction false} FieldsConcat(fs: seq<Field>)
    ensures FieldsBytes(fs) == Concat(fs, FieldBytes)
    decreases |fs|
  {
    if |fs| > 0 {
      FieldsConcat(fs[1..]);
    }
  }

  /** Decoding a section that starts with a record is decoding that record, then the rest. */
  lemma HeadRecord(d: seq<byte>, p: nat, fs: seq<Field>, fb: Field -> seq<byte>, w: LevelValue,
                   n: int, budget: int, rest: int)
    requires IsFieldBytes(fb) && |fs| > 0 && AllFit(fs) && Holds(d, p, Concat(fs, fb))
    requires n + 2 == |fb(fs[0])| && budget == |Concat(fs, fb)| && rest == |Concat(fs[1..], fb)|
    ensures 0 <= n && budget == 2 + n + rest
    ensures AllFit(fs[1..]) && Holds(d, p + 2 + n, Concat(fs[1..], fb))
    ensures DecodeFields(d, p, budget, w) == DecodeFields(d, p + 2 + n, rest, Apply(w, fs[0]))
  {
    var f, tail := fs[0], Concat(fs[1..], fb);
    assert Concat(fs, fb) == fb(f) + tail;
    assert fb(f) == FieldBytes(f);
    AllFitHead(fs);
    PayloadFits(f);
    RecordHead(d, p, Tag(f), n, Payload(f), tail);
    RecordStep(d, p, f, w, n, budget, rest);
  }

  lemma ApplyAllHead(w: LevelValue, fs: seq<Field>)
    requires |fs| > 0
    ensures ApplyAll(w, fs) == ApplyAll(Apply(w, fs[0]), fs[1..])
  {
  }

  /** The field loop succeeded with level `v`, stopping at `next` with the budget used up exactly. */
  predicate Yields(r: Result<FieldsRead>, v: LevelValue, next: nat) {
    r.Success? && r.value.level == v && r.value.next == next && r.value.budget == 0
  }

  /** Proof aid only: carries `Yields` across equal arguments, which keeps callers' proofs cheap. */
  lemma YieldsTransfer(r1: Result<FieldsRead>, r2: Result<FieldsRead>, v1: LevelValue, v2: LevelValue, n1: nat, n2: nat)
    requires r1 == r2 && v1 == v2 && n1 == n2 && Yields(r2, v2, n2)
    ensures Yields(r1, v1, n1)
  {
  }

  /** `dec` is the field loop over `d`, as an opaque function of position, budget and level so far. */
  ghost predicate IsFieldLoop(d: seq<byte>, dec: (nat, int, LevelValue) -> Result<FieldsRead>) {
    forall q, b, x {:trigger DecodeFields(d, q, b, x)} :: dec(q, b, x) == DecodeFields(d, q, b, x)
  }

  /** HeadRecord's step, told about the field loop seen as `dec`. */
  lemma HeadRecordStep(d: seq<byte>, p: nat, fs: seq<Field>, fb: Field -> seq<byte>, w: LevelValue,
                       n: int, budget: int, rest: int, dec: (nat, int, LevelValue) -> Result<FieldsRead>)
    requires IsFieldBytes(fb) && IsFieldLoop(d, dec) && |fs| > 0 && AllFit(fs) && Holds(d, p, Concat(fs, fb))
    requires n + 2 == |fb(fs[0])| && budget == |Concat(fs, fb)| && rest == |Concat(fs[1..], fb)|
    ensures 0 <= n && budget == 2 + n + rest
    ensures AllFit(fs[1..]) && Holds(d, p + 2 + n, Concat(fs[1..], fb))
    ensures dec(p, budget, w) == dec(p + 2 + n, rest, Apply(w, fs[0]))
  {
    HeadRecord(d, p, fs, fb, w, n, budget, rest);
    assert dec(p, budget, w) == DecodeFields(d, p, budget, w);
    assert dec(p + 2 + n, rest, Apply(w, fs[0])) == DecodeFields(d, p + 2 + n, rest, Apply(w, fs[0]));
  }

  lemma {:induction false} FieldsRoundTrip(d: seq<byte>, p: nat, fs: seq<Field>, w: LevelValue,
                                          fb: Field -> seq<byte>, dec: (nat, int, LevelValue) -> Result<FieldsRead>,
                                          budget: int, e: nat)
    requires IsFieldBytes(fb) && IsFieldLoop(d, dec) && AllFit(fs) && Holds(d, p, Concat(fs, fb))
    requires budget == |Concat(fs, fb)| && e == p + budget
    ensures Yields(dec(p, budget, w), ApplyAll(w, fs), e)
    decreases |fs|
  {
    if |fs| == 0 {
      assert dec(p, budget, w) == DecodeFields(d, p, budget, w);
    } else {
      var n, rest, w' := |fb(fs[0])| - 2, fs[1..], Apply(w, fs[0]);
      var budget' := |Concat(rest, fb)|;
      HeadRecordStep(d, p, fs, fb, w, n, budget, budget', dec);
      FieldsRoundTrip(d, p + 2 + n, rest, w', fb, dec, budget', e);
      ApplyAllHead(w, fs);
      YieldsTransfer(dec(p, budget, w), dec(p + 2 + n, budget', w'), ApplyAll(w, fs), ApplyAll(w', rest), e, e);
    }
  }

  lemma {:induction false} ApplyAllAppend(w: LevelValue, a: seq<Field>, b: seq<Field>)
    ensures ApplyAll(w, a + b) == ApplyAll(ApplyAll(w, a), b)
    decreases |a|
  {
    if |a| > 0 {
      assert (a + b)[1..] == a[1..] + b;
      ApplyAllAppend(Apply(w, a[0]), a[1..], b);
    } else {
      assert a + b == b;
    }
  }

  /** `v` with its strings and tables emptied, as a fresh LevelData holds them. */
  function Cleared(v: LevelValue): LevelValue {
    v.(name := "", hint := "", password := "", traps := [], clones := [], moves := [])
  }

  lemma ApplyWhen(w: LevelValue, c: bool, f: Field)
    ensures ApplyAll(w, When(c, f)) == if c then Apply(w, f) else w
  {
  }

  /** The string fields write emits, read back into a cleared level, restore the three strings. */
  lemma StringFieldsRestore(v: LevelValue)
    ensures ApplyAll(Cleared(v), When(v.name != [], NameField(v.name)) + When(v.hint != [], HintField(v.hint))
                                 + When(v.password != [], PasswordField(v.password)))
         == Cleared(v).(name := v.name, hint := v.hint, password := v.password)
  {
    var w1 := When(v.name != [], NameField(v.name));
    var w2 := When(v.hint != [], HintField(v.hint));
    var w3 := When(v.password != [], PasswordField(v.password));
    var c0 := Cleared(v);
    var c1 := c0.(name := v.name);
    var c2 := c1.(hint := v.hint);
    assert ApplyAll(c0, w1) == c1 by {
      ApplyWhen(c0, v.name != [], NameField(v.name));
    }
    assert ApplyAll(c0, w1 + w2) == c2 by {
      ApplyAllAppend(c0, w1, w2);
      ApplyWhen(c1, v.hint != [], HintField(v.hint));
    }
    ApplyAllAppend(c0, w1 + w2, w3);
    ApplyWhen(c2, v.password != [], PasswordField(v.password));
  }

  /** Reading back the fields write emits restores every string and table of a cleared level. */
  lemma FieldListRestores(v: LevelValue)
    ensures ApplyAll(Cleared(v), FieldList(v)) == v
  {
    var s3 := When(v.name != [], NameField(v.name)) + When(v.hint != [], HintField(v.hint))
              + When(v.password != [], PasswordField(v.password));
    var w4 := When(|v.traps| > 0, TrapsField(v.traps));
    var w5 := When(|v.clones| > 0, ClonesField(v.clones));
    var w6 := When(|v.moves| > 0, MovesField(v.moves));
    var c0 := Cleared(v);
    var c3 := c0.(name := v.name, hint := v.hint, password := v.password);
    var c4 := c3.(traps := v.traps);
    var c5 := c4.(clones := v.clones);
    StringFieldsRestore(v);
    assert ApplyAll(c0, s3 + w4) == c4 by {
      ApplyAllAppend(c0, s3, w4);
      ApplyWhen(c3, |v.traps| > 0, TrapsField(v.traps));
    }
    assert ApplyAll(c0, s3 + w4 + w5) == c5 by {
      ApplyAllAppend(c0, s3 + w4, w5);
      ApplyWhen(c4, |v.clones| > 0, ClonesField(v.clones));
    }
    assert ApplyAll(c0, s3 + w4 + w5 + w6) == v by {
      ApplyAllAppend(c0, s3 + w4 + w5, w6);
      ApplyWhen(c5, |v.moves| > 0, MovesField(v.moves));
    }
    assert FieldList(v) == s3 + w4 + w5 + w6;
  }

  lemma FieldListFits(v: LevelValue)
    requires Fits(v)
    ensures AllFit(FieldList(v)) && |FieldList(v)| <= 6
  {
  }

  lemma {:induction false} FieldsBytesBound(fs: seq<Field>)
    requires AllFit(fs)
    ensures |FieldsBytes(fs)| <= 0x101 * |fs|
    decreases |fs|
  {
    if |fs| > 0 {
      AllFitHead(fs);
      PayloadFits(fs[0]);
      FieldsBytesBound(fs[1..]);
    }
  }

  /** Both size words write patches fit in 16 bits. */
  lemma BodyFits(v: LevelValue)
    requires Fits(v)
    ensures |FieldsBytes(FieldList(v))| < |Body(v)| < 0x1_0000
  {
    FieldListFits(v);
    FieldsBytesBound(FieldList(v));
  }

  /** DecodeHead, given what each of its reads returns. */
  lemma HeadStep(d: seq<byte>, q: nat, w: LevelValue, num: u16, timer: u16, chips: u16,
                 fg: seq<Tile>, bg: seq<Tile>, next: nat)
    requires Get16(d, q) == Success(Read(num, q + 2)) && Get16(d, q + 2) == Success(Read(timer, q + 4))
    requires Get16(d, q + 4) == Success(Read(chips, q + 6)) && Get16(d, q + 6) == Success(Read(1, q + 8))
    requires q + 8 <= |d| && LayersRead(DecodeLayers(d, q + 8), fg, bg, next)
    ensures Gives(DecodeHead(d, q, w), w.(levelNum := num, timer := timer, chips := chips, fg := fg, bg := bg), next)
  {
  }

  /** The four head words read back; the layers are whatever DecodeLayers makes of what follows. */
  lemma HeadRoundTrip(d: seq<byte>, q: nat, v: LevelValue, w: LevelValue, next: nat)
    requires Holds(d, q, LE16(v.levelNum) + LE16(v.timer) + LE16(v.chips) + LE16(1))
    requires q + 8 <= |d| && LayersRead(DecodeLayers(d, q + 8), v.fg, v.bg, next)
    ensures Gives(DecodeHead(d, q, w), w.(levelNum := v.levelNum, timer := v.timer, chips := v.chips,
                                        fg := v.fg, bg := v.bg), next)
  {
    var a, b, c, m := LE16(v.levelNum), LE16(v.timer), LE16(v.chips), LE16(1);
    assert Holds(d, q, a) && Holds(d, q + 2, b) && Holds(d, q + 4, c) && Holds(d, q + 6, m) by {
      HoldsSplit(d, q, a + b + c, m);
      HoldsSplit(d, q, a + b, c);
      HoldsSplit(d, q, a, b);
    }
    Get16Word(d, q, v.levelNum);
    Get16Word(d, q + 2, v.timer);
    Get16Word(d, q + 4, v.chips);
    Get16Word(d, q + 6, 1);
    HeadStep(d, q, w, v.levelNum, v.timer, v.chips, v.fg, v.bg, next);
  }

  /** The four words of a head, as Body lays them out. */
  function HeadWords(v: LevelValue): seq<byte> {
    LE16(v.levelNum) + LE16(v.timer) + LE16(v.chips) + LE16(1)
  }

  lemma BodyPieces(v: LevelValue)
    ensures Body(v) == HeadWords(v) + LayersBytes(v.fg, v.bg) + LE16(|FieldsBytes(FieldList(v))|) + FieldsBytes(FieldList(v))
    ensures |HeadWords(v)| == 8
  {
  }

  /** A body holds the head words first, then the layers, the field-section word and the fields, back to back. */
  lemma BodyHoldsHead(d: seq<byte>, q: nat, v: LevelValue)
    requires Holds(d, q, Body(v))
    ensures Holds(d, q, HeadWords(v))
  {
    var l, f := LayersBytes(v.fg, v.bg), FieldsBytes(FieldList(v));
    BodyPieces(v);
    HoldsPieces(d, q, Body(v), HeadWords(v), l, LE16(|f|), f, q + 8, q + 8 + |l|, q + 10 + |l|);
  }

  lemma BodyHoldsLayers(d: seq<byte>, q: nat, v: LevelValue, l: seq<byte>)
    requires Holds(d, q, Body(v)) && l == LayersBytes(v.fg, v.bg)
    ensures Holds(d, q + 8, l)
  {
    var f := FieldsBytes(FieldList(v));
    BodyPieces(v);
    HoldsPieces(d, q, Body(v), HeadWords(v), l, LE16(|f|), f, q + 8, q + 8 + |l|, q + 10 + |l|);
  }

  lemma BodyHoldsWord(d: seq<byte>, q: nat, v: LevelValue, h: nat, n: nat)
    requires Holds(d, q, Body(v)) && h == q + 8 + |LayersBytes(v.fg, v.bg)| && n == |FieldsBytes(FieldList(v))|
    ensures Holds(d, h, LE16(n))
  {
    var l, f := LayersBytes(v.fg, v.bg), FieldsBytes(FieldList(v));
    BodyPieces(v);
    HoldsPieces(d, q, Body(v), HeadWords(v), l, LE16(n), f, q + 8, h, h + 2);
  }

  lemma BodyHoldsFields(d: seq<byte>, q: nat, v: LevelValue, r: nat, f: seq<byte>)
    requires Holds(d, q, Body(v)) && r == q + 10 + |LayersBytes(v.fg, v.bg)| && f == FieldsBytes(FieldList(v))
    ensures Holds(d, r, f)
  {
    var l := LayersBytes(v.fg, v.bg);
    BodyPieces(v);
    HoldsPieces(d, q, Body(v), HeadWords(v), l, LE16(|f|), f, q + 8, q + 8 + |l|, r);
  }

  /** The head read into a fresh level gives `v` with its strings and tables still empty. */
  lemma HeadIntoFresh(d: seq<byte>, q: nat, v: LevelValue, h: nat)
    requires Holds(d, q, HeadWords(v))
    requires q + 8 <= |d| && LayersRead(DecodeLayers(d, q + 8), v.fg, v.bg, h)
    ensures Gives(DecodeHead(d, q, Fresh()), Cleared(v), h)
  {
    HeadRoundTrip(d, q, v, Fresh(), h);
    assert Fresh().(levelNum := v.levelNum, timer := v.timer, chips := v.chips, fg := v.fg, bg := v.bg) == Cleared(v);
  }

  /** The fields write emits, read into the cleared level with their own length as budget, give `v`. */
  lemma FieldsIntoCleared(d: seq<byte>, r: nat, v: LevelValue, dec: (nat, int, LevelValue) -> Result<FieldsRead>)
    requires IsFieldLoop(d, dec) && Fits(v) && Holds(d, r, FieldsBytes(FieldList(v)))
    ensures Yields(dec(r, |FieldsBytes(FieldList(v))|, Cleared(v)), v, r + |FieldsBytes(FieldList(v))|)
  {
    var fs := FieldList(v);
    FieldListFits(v);
    FieldsConcat(fs);
    FieldsRoundTrip(d, r, fs, Cleared(v), FieldBytes, dec, |FieldsBytes(fs)|, r + |FieldsBytes(fs)|);
    FieldListRestores(v);
    YieldsTransfer(dec(r, |FieldsBytes(fs)|, Cleared(v)), dec(r, |FieldsBytes(fs)|, Cleared(v)),
                   v, ApplyAll(Cleared(v), fs), r + |FieldsBytes(fs)|, r + |FieldsBytes(fs)|);
  }

  lemma BodyLength(v: LevelValue)
    ensures |Body(v)| == 10 + |LayersBytes(v.fg, v.bg)| + |FieldsBytes(FieldList(v))|
  {
  }

  /** The layers of a body read back. */
  lemma BodyLayers(d: seq<byte>, q: nat, v: LevelValue)
    requires |v.fg| == Cells && |v.bg| == Cells && Holds(d, q, Body(v))
    ensures q + 8 <= |d| && LayersRead(DecodeLayers(d, q + 8), v.fg, v.bg, q + 8 + |LayersBytes(v.fg, v.bg)|)
  {
    BodyHoldsLayers(d, q, v, LayersBytes(v.fg, v.bg));
    LayersRoundTrip(d, q + 8, v.fg, v.bg);
  }

  /** The head of a body reads into a fresh level as `v` with its strings and tables empty. */
  lemma BodyHead(d: seq<byte>, q: nat, v: LevelValue, h: nat)
    requires Holds(d, q, Body(v)) && q + 8 <= |d| && LayersRead(DecodeLayers(d, q + 8), v.fg, v.bg, h)
    ensures Gives(DecodeHead(d, q, Fresh()), Cleared(v), h)
  {
    BodyHoldsHead(d, q, v);
    HeadIntoFresh(d, q, v, h);
  }

  /** The fields of a body, read into the cleared level with their length as budget, give `v`. */
  lemma BodyFields(d: seq<byte>, q: nat, v: LevelValue, r: nat, n: nat, e: nat,
                    dec: (nat, int, LevelValue) -> Result<FieldsRead>)
    requires IsFieldLoop(d, dec) && Fits(v) && Holds(d, q, Body(v))
    requires r == q + 10 + |LayersBytes(v.fg, v.bg)| && n == |FieldsBytes(FieldList(v))| && e == r + n
    ensures Yields(dec(r, n, Cleared(v)), v, e)
  {
    BodyHoldsFields(d, q, v, r, FieldsBytes(FieldList(v)));
    FieldsIntoCleared(d, r, v, dec);
  }

  /** The field-section word of a body reads back as the length of the fields. */
  lemma BodyWord(d: seq<byte>, q: nat, v: LevelValue, h: nat, n: nat)
    requires Holds(d, q, Body(v)) && n < 0x1_0000
    requires h == q + 8 + |LayersBytes(v.fg, v.bg)| && n == |FieldsBytes(FieldList(v))|
    ensures Get16(d, h) == Success(Read(n, h + 2))
  {
    BodyHoldsWord(d, q, v, h, n);
    Get16Word(d, h, n);
  }

  /** DecodePrelude, given what the size word, the head and the field-section word give. */
  lemma PreludeStep(d: seq<byte>, p: nat, clip: bool, size: int, c: LevelValue, h: nat, count: u16)
    requires !clip ==> Get16(d, p) == Success(Read(size, p + 2))
    requires Gives(DecodeHead(d, if clip then p else p + 2, Fresh()), c, h)
    requires Get16(d, h) == Success(Read(count, h + 2))
    requires !clip ==> count == size - (h - (p + 2)) - 2
    ensures DecodePrelude(d, p, clip, Fresh()) == Success(FieldsRead(c, h + 2, count))
  {
    var sz: Result<Read<int>> := if clip then Success(Read(0, p)) else Get16(d, p);
    assert sz.Success? && sz.value.next == if clip then p else p + 2;
  }

  /** DecodeLevel, given what the size word, the head, the field-section word and the field loop give. */
  lemma LevelStep(d: seq<byte>, p: nat, clip: bool, size: int, c: LevelValue, h: nat, count: u16, v: LevelValue, e: nat,
                   dec: (nat, int, LevelValue) -> Result<FieldsRead>)
    requires IsFieldLoop(d, dec)
    requires !clip ==> Get16(d, p) == Success(Read(size, p + 2))
    requires Gives(DecodeHead(d, if clip then p else p + 2, Fresh()), c, h)
    requires Get16(d, h) == Success(Read(count, h + 2))
    requires !clip ==> count == size - (h - (p + 2)) - 2
    requires Yields(dec(h + 2, count, c), v, e)
    ensures Gives(DecodeLevel(d, p, clip, Fresh()), v, e)
  {
    PreludeStep(d, p, clip, size, c, h, count);
    LevelFromPrelude(d, p, clip, FieldsRead(c, h + 2, count), dec);
    FinishYields(dec(h + 2, count, c), clip, v, e);
  }

  /** Once the prelude has read, DecodeLevel is the field loop from where it stopped, then the budget check. */
  lemma LevelFromPrelude(d: seq<byte>, p: nat, clip: bool, pre: FieldsRead, dec: (nat, int, LevelValue) -> Result<FieldsRead>)
    requires IsFieldLoop(d, dec) && DecodePrelude(d, p, clip, Fresh()) == Success(pre)
    ensures DecodeLevel(d, p, clip, Fresh()) == FinishLevel(dec(pre.next, pre.budget, pre.level), clip)
  {
    assert dec(pre.next, pre.budget, pre.level) == DecodeFields(d, pre.next, pre.budget, pre.level);
  }

  /** A field loop that used up its budget finishes the level. */
  lemma FinishYields(r: Result<FieldsRead>, clip: bool, v: LevelValue, e: nat)
    requires Yields(r, v, e)
    ensures Gives(FinishLevel(r, clip), v, e)
  {
  }

  /** Where the field-section word and the fields of a body at `q` sit, and that the fields fit a 16-bit word. */
  lemma BodySizes(v: LevelValue, q: nat, h: nat, n: nat, e: nat)
    requires Fits(v)
    requires h == q + 8 + |LayersBytes(v.fg, v.bg)| && n == |FieldsBytes(FieldList(v))| && e == q + |Body(v)|
    ensures e == h + 2 + n && n < 0x1_0000
  {
    BodyLength(v);
    BodyFits(v);
  }

  /** The head of a body held at `q`, layers included, reads into a fresh level as the cleared `v`. */
  lemma BodyHeadRead(d: seq<byte>, q: nat, v: LevelValue, h: nat)
    requires |v.fg| == Cells && |v.bg| == Cells && Holds(d, q, Body(v))
    requires h == q + 8 + |LayersBytes(v.fg, v.bg)|
    ensures Gives(DecodeHead(d, q, Fresh()), Cleared(v), h)
  {
    BodyLayers(d, q, v);
    BodyHead(d, q, v, h);
  }

  /** What the field-section word and the field loop give on a body held at `q`. */
  lemma BodyTail(d: seq<byte>, q: nat, v: LevelValue, h: nat, n: nat, e: nat,
                 dec: (nat, int, LevelValue) -> Result<FieldsRead>)
    requires IsFieldLoop(d, dec) && Fits(v) && Holds(d, q, Body(v))
    requires h == q + 8 + |LayersBytes(v.fg, v.bg)| && n == |FieldsBytes(FieldList(v))| && e == q + |Body(v)|
    ensures e == h + 2 + n && n < 0x1_0000
    ensures Get16(d, h) == Success(Read(n, h + 2))
    ensures Yields(dec(h + 2, n, Cleared(v)), v, e)
  {
    BodySizes(v, q, h, n, e);
    BodyFields(d, q, v, h + 2, n, e, dec);
    BodyWord(d, q, v, h, n);
  }

  /** A body held at `q`, after its size word at `p` unless in clipboard mode, reads back as `v`. */
  lemma BodyRoundTrip(d: seq<byte>, p: nat, q: nat, v: LevelValue, clip: bool)
    requires Fits(v) && Holds(d, q, Body(v)) && q == if clip then p else p + 2
    requires !clip ==> Get16(d, p) == Success(Read(|Body(v)|, p + 2))
    ensures Gives(DecodeLevel(d, p, clip, Fresh()), v, q + |Body(v)|)
  {
    var h, n, e := q + 8 + |LayersBytes(v.fg, v.bg)|, |FieldsBytes(FieldList(v))|, q + |Body(v)|;
    var dec := (q: nat, b: int, x: LevelValue) => DecodeFields(d, q, b, x);
    BodyTail(d, q, v, h, n, e, dec);
    BodyHeadRead(d, q, v, h);
    LevelStep(d, p, clip, |Body(v)|, Cleared(v), h, n, v, e, dec);
  }

  /** Reading what write emitted into a fresh LevelData recovers every field, in both modes. */
  lemma LevelRoundTrip(d: seq<byte>, p: nat, v: LevelValue, clip: bool)
    requires Fits(v) && Holds(d, p, EncodeLevel(v, clip))
    ensures Gives(DecodeLevel(d, p, clip, Fresh()), v, p + |EncodeLevel(v, clip)|)
  {
    var q := if clip then p else p + 2;
    var body := Body(v);
    assert |body| < 0x1_0000 by {
      BodyFits(v);
    }
    if !clip {
      HoldsSplit(d, p, LE16(|body|), body);
      Get16Word(d, p, |body|);
    }
    BodyRoundTrip(d, p, q, v, clip);
  }

  // ------------------------------------------------------------------
  // The two size words write patches in.
  // ------------------------------------------------------------------

  /** A body with a zero placeholder for the field-section word. */
  function Rest(v: LevelValue): seq<byte> {
    HeadWords(v) + LayersBytes(v.fg, v.bg) + LE16(0) + FieldsBytes(FieldList(v))
  }

  /** What write has emitted when it reaches the patches: zero placeholders for both size words. */
  function Draft(v: LevelValue, clip: bool): seq<byte> {
    if clip then Rest(v) else LE16(0) + Rest(v)
  }

  /** Where the field-section word sits in a record. */
  function FieldWordAt(v: LevelValue, clip: bool): nat {
    (if clip then 0 else 2) + 8 + |LayersBytes(v.fg, v.bg)|
  }

  /**
   * The bytes `w` once write has patched them: in stored mode the leading word
   * becomes the count of bytes after it, then the word at `off` becomes the
   * count of bytes after that word.
   */
  function Patched(w: seq<byte>, off: nat, clip: bool): seq<byte>
    requires off + 2 <= |w|
  {
    var u := if clip then w else w[..0] + LE16(|w| - 2) + w[2..];
    u[..off] + LE16(|u| - off - 2) + u[off + 2..]
  }

  /** Overwriting the front `z` of `z + r` with `c` of the same length. */
  lemma PatchFront(z: seq<byte>, c: seq<byte>, r: seq<byte>)
    requires |z| == |c|
    ensures (z + r)[..0] + c + (z + r)[|c|..] == c + r
  {
    assert (z + r)[|c|..] == r;
  }

  /** Overwriting the part `z` of `a + (m + z + f)` with `c` of the same length. */
  lemma PatchInside(a: seq<byte>, m: seq<byte>, z: seq<byte>, c: seq<byte>, f: seq<byte>)
    requires |z| == |c|
    ensures (a + (m + z + f))[..|a| + |m|] + c + (a + (m + z + f))[|a| + |m| + |c|..] == a + (m + c + f)
  {
    assert (a + (m + z + f))[..|a| + |m|] == a + m;
    assert (a + (m + z + f))[|a| + |m| + |c|..] == f;
  }

  /** The same patch when nothing precedes the body. */
  lemma PatchMiddle(m: seq<byte>, z: seq<byte>, c: seq<byte>, f: seq<byte>)
    requires |z| == |c|
    ensures (m + z + f)[..|m|] + c + (m + z + f)[|m| + |c|..] == m + c + f
  {
    assert (m + z + f)[..|m|] == m;
    assert (m + z + f)[|m| + |c|..] == f;
  }

  /** Clipboard mode: patching the field-section word of head, placeholder and fields. */
  lemma PatchedClip(m: seq<byte>, f: seq<byte>)
    ensures |m| + 2 <= |m + LE16(0) + f|
    ensures Patched(m + LE16(0) + f, |m|, true) == m + LE16(|f|) + f
  {
    PatchMiddle(m, LE16(0), LE16(|f|), f);
  }

  /** Stored mode: patching the outer size word, then the field-section word. */
  lemma PatchedStored(m: seq<byte>, f: seq<byte>)
    ensures 2 + |m| + 2 <= |LE16(0) + (m + LE16(0) + f)|
    ensures Patched(LE16(0) + (m + LE16(0) + f), 2 + |m|, false) == LE16(|m| + 2 + |f|) + (m + LE16(|f|) + f)
  {
    var r := m + LE16(0) + f;
    var a := LE16(|r|);
    PatchFront(LE16(0), a, r);
    PatchInside(a, m, LE16(0), LE16(|f|), f);
  }

  /** Patching both size words of the draft gives the encoding. */
  lemma DraftEncodes(v: LevelValue, clip: bool)
    ensures FieldWordAt(v, clip) + 2 <= |Draft(v, clip)|
    ensures Patched(Draft(v, clip), FieldWordAt(v, clip), clip) == EncodeLevel(v, clip)
  {
    var m, f := HeadWords(v) + LayersBytes(v.fg, v.bg), FieldsBytes(FieldList(v));
    DraftPieces(v, m, f);
    if clip {
      PatchedClip(m, f);
    } else {
      PatchedStored(m, f);
    }
  }

  /** The draft, the field-word offset and the encoding, in terms of the head and layers `m` and the fields `f`. */
  lemma DraftPieces(v: LevelValue, m: seq<byte>, f: seq<byte>)
    requires m == HeadWords(v) + LayersBytes(v.fg, v.bg) && f == FieldsBytes(FieldList(v))
    ensures Draft(v, true) == m + LE16(0) + f && FieldWordAt(v, true) == |m|
    ensures EncodeLevel(v, true) == m + LE16(|f|) + f
    ensures Draft(v, false) == LE16(0) + (m + LE16(0) + f) && FieldWordAt(v, false) == 2 + |m|
    ensures EncodeLevel(v, false) == LE16(|m| + 2 + |f|) + (m + LE16(|f|) + f)
  {
    assert |m| == 8 + |LayersBytes(v.fg, v.bg)|;
    assert Rest(v) == m + LE16(0) + f && Body(v) == m + LE16(|f|) + f;
  }

  /** On the stream: the placeholder size word, then the rest, is the draft. */
  lemma StoredDraft(d: seq<byte>, p: nat, v: LevelValue)
    requires p <= |d|
    ensures Splice(Splice(d, p, LE16(0)), p + 2, Rest(v)) == Splice(d, p, Draft(v, false))
  {
    SpliceAppend(d, p, LE16(0), Rest(v));
  }
}
