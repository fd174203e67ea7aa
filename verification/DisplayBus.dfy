/** What goes over the wire to the display: commands and data told apart by the level of the DC pin, long data in
transfers of at most 1000 bytes, and the interpreter of the packed table of start-up commands.  */
module DisplayBus {

  import opened FrameBuffer
  import opened Sequences

  newtype byte = x: int | 0 <= x < 256

  const DATA_SIZE: nat := 1000

  datatype Event = Dc(high: bool) | Spi(bytes: seq<byte>) | Sleep(seconds: nat)

  /** What the display makes of the events: how a transfer is cut into pieces is invisible to it. */
  datatype Item = Cmd(b: byte) | Data(b: byte) | Pause(seconds: nat)

  function Level(log: seq<Event>): (high: bool) {
    if log == [] then
      false
    else
      match log[|log| - 1]
      case Dc(h) => h
      case _ => Level(log[..|log| - 1])
  }

  function Tagged(bytes: seq<byte>, high: bool): (items: seq<Item>) {
    seq(|bytes|, i requires 0 <= i < |bytes| => if high then Data(bytes[i]) else Cmd(bytes[i]))
  }

  function ItemsOf(e: Event, high: bool): (items: seq<Item>) {
    if e.Dc? then [] else if e.Spi? then Tagged(e.bytes, high) else [Pause(e.seconds)]
  }

  function Received(log: seq<Event>): (items: seq<Item>) {
    if log == [] then
      []
    else
      var before := log[..|log| - 1];
      Received(before) + ItemsOf(log[|log| - 1], Level(before))
  }

  lemma ReceivedNext(log: seq<Event>, e: Event)
    ensures Level(log + [e]) == if e.Dc? then e.high else Level(log)
    ensures Received(log + [e]) == Received(log) + ItemsOf(e, Level(log))
  {
    assert (log + [e])[..|log|] == log;
  }

  lemma TaggedSplit(data: seq<byte>, k: nat, high: bool)
    requires k <= |data|
    ensures Tagged(data, high) == Tagged(data[..k], high) + Tagged(data[k..], high)
  {
  }

  /** What reaches the display, event by event: a level changes nothing by itself, a transfer arrives byte by byte as
      commands or data according to the last level, and a pause is a pause. */
  lemma ReceivedMeans(log: seq<Event>, high: bool, bytes: seq<byte>, seconds: nat)
    ensures Received([]) == [] && !Level([])
    ensures Level(log + [Dc(high)]) == high && Received(log + [Dc(high)]) == Received(log)
    ensures Level(log + [Spi(bytes)]) == Level(log)
    ensures Received(log) <= Received(log + [Spi(bytes)])
    ensures var after := Received(log + [Spi(bytes)])[|Received(log)|..];
      && |after| == |bytes|
      && forall i | 0 <= i < |bytes| :: after[i] == if Level(log) then Data(bytes[i]) else Cmd(bytes[i])
    ensures Level(log + [Sleep(seconds)]) == Level(log)
    ensures Received(log + [Sleep(seconds)]) == Received(log) + [Pause(seconds)]
  {
    hide Received, Level, Tagged;
    ReceivedNothing();
    ReceivedNext(log, Dc(high));
    ReceivedNext(log, Spi(bytes));
    ReceivedNext(log, Sleep(seconds));
    TaggedAre(bytes, Level(log));
    assert (Received(log) + Tagged(bytes, Level(log)))[|Received(log)|..] == Tagged(bytes, Level(log));
  }

  lemma ReceivedNothing()
    ensures Received([]) == [] && !Level([])
  {
  }

  lemma TaggedAre(bytes: seq<byte>, high: bool)
    ensures |Tagged(bytes, high)| == |bytes|
    ensures forall i | 0 <= i < |bytes| :: Tagged(bytes, high)[i] == if high then Data(bytes[i]) else Cmd(bytes[i])
  {
  }

  // ---------- transfers ----------

  /** The transfers that a block of data goes out in. */
  function Pieces(data: seq<byte>): (pieces: seq<Event>) {
    if |data| <= DATA_SIZE then [Spi(data)] else [Spi(data[..DATA_SIZE])] + Pieces(data[DATA_SIZE..])
  }

  /** Transfer k carries the bytes from 1000 k on, up to the next thousand or the end. */
  lemma {:induction false} PiecesAt(data: seq<byte>, k: nat)
    requires |data| > 0 ==> 1000 * k < |data|
    requires |data| == 0 ==> k == 0
    ensures k < |Pieces(data)|
    ensures Pieces(data)[k] == Spi(data[1000 * k..if 1000 * (k + 1) < |data| then 1000 * (k + 1) else |data|])
    decreases k
  {
    hide Pieces;
    PiecesNext(data);
    if k == 0 {
      assert data[0..|data|] == data && (|data| > 1000 ==> data[0..1000] == data[..1000]);
    } else {
      var rest, end := data[1000..], if 1000 * (k + 1) < |data| then 1000 * (k + 1) else |data|;
      PiecesAt(rest, k - 1);
      assert rest[1000 * (k - 1)..end - 1000] == data[1000 * k..end];
    }
  }

  /** All transfers but the last are full, no transfer is longer than that, and there are no more than needed. */
  lemma {:induction false} PieceSizes(data: seq<byte>)
    ensures var pieces := Pieces(data);
      && 0 < |pieces| && (|data| > 0 ==> DATA_SIZE * (|pieces| - 1) < |data| <= DATA_SIZE * |pieces|)
      && (forall k | 0 <= k < |pieces| :: pieces[k].Spi? && |pieces[k].bytes| <= DATA_SIZE)
      && (forall k | 0 <= k < |pieces| - 1 :: |pieces[k].bytes| == DATA_SIZE)
    decreases |data|
  {
    if |data| > DATA_SIZE {
      PieceSizes(data[DATA_SIZE..]);
    }
  }

  lemma DcReceived(log: seq<Event>)
    ensures Received(log + [Dc(true)]) == Received(log) && Level(log + [Dc(true)])
  {
    ReceivedNext(log, Dc(true));
  }

  lemma PiecesNext(data: seq<byte>)
    ensures Pieces(data) == if |data| <= DATA_SIZE then [Spi(data)]
                            else [Spi(data[..DATA_SIZE])] + Pieces(data[DATA_SIZE..])
  {
  }

  lemma SpiReceived(log: seq<Event>, data: seq<byte>)
    requires Level(log)
    ensures Received(log + [Spi(data)]) == Received(log) + Tagged(data, true) && Level(log + [Spi(data)])
  {
    ReceivedNext(log, Spi(data));
  }

  /** The transfers in order make up the data. */
  lemma {:induction false} PiecesAreData(log: seq<Event>, data: seq<byte>)
    requires Level(log)
    ensures Received(log + Pieces(data)) == Received(log) + Tagged(data, true) && Level(log + Pieces(data))
    decreases |data|
  {
    hide *;
    PiecesNext(data);
    if |data| <= DATA_SIZE {
      SpiReceived(log, data);
    } else {
      var first, rest := data[..DATA_SIZE], data[DATA_SIZE..];
      SpiReceived(log, first);
      PiecesAreData(log + [Spi(first)], rest);
      Associative(log, [Spi(first)], Pieces(rest));
      TaggedSplit(data, DATA_SIZE, true);
      Associative(Received(log), Tagged(first, true), Tagged(rest, true));
    }
  }

  // ---------- the command table ----------

  /** One start-up command: its code, its arguments and the seconds to wait after it. */
  datatype Command = Command(op: byte, args: seq<byte>, delay: byte)

  /** An argument count is one byte. */
  predicate Short(cmd: Command) {
    |cmd.args| < 256
  }

  /** The layout of a command in the table: code, number of arguments, delay, arguments. */
  function Packed(cmd: Command): (bytes: seq<byte>)
    requires Short(cmd)
  {
    [cmd.op, |cmd.args| as byte, cmd.delay] + cmd.args
  }

  function Flat(cmds: seq<Command>): (bytes: seq<byte>)
    requires forall c | c in cmds :: Short(c)
  {
    if cmds == [] then [] else Packed(cmds[0]) + Flat(cmds[1..])
  }

  /** The table holds the commands one after the other, each as its code, the number of its arguments, the delay and the
      arguments. */
  lemma FlatNext(cmd: Command, cmds: seq<Command>)
    requires Short(cmd) && forall c | c in cmds :: Short(c)
    ensures Flat([]) == []
    ensures Flat([cmd] + cmds) == [cmd.op, |cmd.args| as byte, cmd.delay] + cmd.args + Flat(cmds)
  {
    assert ([cmd] + cmds)[1..] == cmds;
  }

  datatype Parsed = Parsed(cmds: seq<Command>, rest: seq<byte>) | Truncated

  /** The first `count` commands of a table, and what is left of it. */
  function Parse(table: seq<byte>, count: nat): (p: Parsed) {
    if count == 0 then
      Parsed([], table)
    else if |table| < 3 || |table| < 3 + table[1] as nat then
      Truncated
    else
      var n := table[1] as nat;
      match Parse(table[3 + n..], count - 1)
      case Truncated => Truncated
      case Parsed(cmds, rest) => Parsed([Command(table[0], table[3..3 + n], table[2])] + cmds, rest)
  }

  lemma PackedHead(cmd: Command, tail: seq<byte>)
    requires Short(cmd)
    ensures var t, n := Packed(cmd) + tail, |cmd.args|;
      && |t| >= 3 + n && t[0] == cmd.op && t[1] as nat == n && t[2] == cmd.delay
      && t[3..3 + n] == cmd.args && t[3 + n..] == tail
  {
  }

  /** Parsing undoes packing, with anything after the packed commands left over. */
  lemma {:induction false} ParseFlat(cmds: seq<Command>, rest: seq<byte>)
    requires forall c | c in cmds :: Short(c)
    ensures Parse(Flat(cmds) + rest, |cmds|) == Parsed(cmds, rest)
  {
    if cmds == [] {
      assert Flat(cmds) + rest == rest;
    } else {
      var tail := Flat(cmds[1..]) + rest;
      PackedHead(cmds[0], tail);
      hide Packed;
      Associative(Packed(cmds[0]), Flat(cmds[1..]), rest);
      ParseFlat(cmds[1..], rest);
      assert [cmds[0]] + cmds[1..] == cmds;
    }
  }

  lemma Unpacked(t: seq<byte>)
    requires |t| >= 3 && |t| >= 3 + t[1] as nat
    ensures var n := t[1] as nat;
      var cmd := Command(t[0], t[3..3 + n], t[2]);
      Short(cmd) && t == Packed(cmd) + t[3 + n..]
  {
  }

  /** Packing undoes parsing: a table has one reading only. */
  lemma {:induction false} FlatParse(table: seq<byte>, count: nat)
    requires Parse(table, count).Parsed?
    ensures var p := Parse(table, count);
      && |p.cmds| == count && (forall c | c in p.cmds :: Short(c))
      && table == Flat(p.cmds) + p.rest
  {
    if count > 0 {
      var n := table[1] as nat;
      var p, q := Parse(table, count), Parse(table[3 + n..], count - 1);
      FlatParse(table[3 + n..], count - 1);
      Unpacked(table);
      hide Packed, Parse;
      assert p.cmds[1..] == q.cmds;
      Associative(Packed(p.cmds[0]), Flat(q.cmds), q.rest);
    }
  }

  /** Reading one command at a position of the table. */
  lemma ParseNext(table: seq<byte>, position: nat, left: nat, all: seq<Command>, k: nat, rest: seq<byte>)
    requires position <= |table| && 0 < left && k < |all|
    requires Parse(table[position..], left) == Parsed(all[k..], rest)
    ensures position + 3 <= |table| && position + 3 + table[position + 1] as nat <= |table|
    ensures var n := table[position + 1] as nat;
      && all[k] == Command(table[position], table[position + 3..position + 3 + n], table[position + 2])
      && Parse(table[position + 3 + n..], left - 1) == Parsed(all[k + 1..], rest)
  {
    var t := table[position..];
    var n := t[1] as nat;
    assert t[3..3 + n] == table[position + 3..position + 3 + n];
    assert t[3 + n..] == table[position + 3 + n..];
    assert all[k..][1..] == all[k + 1..];
  }

  /** Different command lists have different tables. */
  lemma FlatInjective(a: seq<Command>, b: seq<Command>)
    requires (forall c | c in a :: Short(c)) && (forall c | c in b :: Short(c))
    requires |a| == |b| && Flat(a) == Flat(b)
    ensures a == b
  {
    ParseFlat(a, []);
    ParseFlat(b, []);
  }

  /** What the display is to receive for a command. */
  function Effect(cmd: Command): (items: seq<Item>) {
    [Cmd(cmd.op)] + Tagged(cmd.args, true) + if cmd.delay == 0 then [] else [Pause(cmd.delay as nat)]
  }

  function Effects(cmds: seq<Command>): (items: seq<Item>) {
    if cmds == [] then [] else Effects(cmds[..|cmds| - 1]) + Effect(cmds[|cmds| - 1])
  }

  /** For each command the display is to receive its code, each of its arguments, and a pause if there is one. */
  lemma EffectMeans(cmd: Command)
    ensures |Effect(cmd)| == 1 + |cmd.args| + (if cmd.delay == 0 then 0 else 1)
    ensures Effect(cmd)[0] == Cmd(cmd.op)
    ensures forall i | 0 <= i < |cmd.args| :: Effect(cmd)[1 + i] == Data(cmd.args[i])
    ensures cmd.delay > 0 ==> Effect(cmd)[1 + |cmd.args|] == Pause(cmd.delay as nat)
  {
  }

  lemma NoEffects()
    ensures Effects([]) == []
  {
  }

  lemma EffectsNext(cmds: seq<Command>, k: nat)
    requires k < |cmds|
    ensures Effects(cmds[..k + 1]) == Effects(cmds[..k]) + Effect(cmds[k])
  {
    assert cmds[..k + 1][..k] == cmds[..k];
  }

  lemma PauseReceived(log: seq<Event>, seconds: nat)
    ensures Received(log + [Sleep(seconds)]) == Received(log) + ItemsOf(Sleep(seconds), true)
  {
    ReceivedNext(log, Sleep(seconds));
  }

  /** The bytes of a command, its arguments if there are any, and its pause if there is one. */
  lemma EffectIs(cmd: Command, before: seq<Item>, sent: seq<Item>, filled: seq<Item>, after: seq<Item>)
    requires sent == before + [Cmd(cmd.op)]
    requires filled == if |cmd.args| == 0 then sent else sent + Tagged(cmd.args, true)
    requires after == if cmd.delay == 0 then filled else filled + ItemsOf(Sleep(cmd.delay as nat), true)
    ensures after == before + Effect(cmd)
  {
  }

  lemma ParseNone(table: seq<byte>)
    ensures Parse(table, 0) == Parsed([], table)
  {
  }

  // ---------- the screen ----------

  function High(w: bv16): (b: byte) {
    (w >> 8) as byte
  }

  function Low(w: bv16): (b: byte) {
    (w & 0xFF) as byte
  }

  function FrameBytes(words: seq<bv16>): (bytes: seq<byte>)
    ensures |bytes| == 2 * |words|
  {
    seq(2 * |words|, i requires 0 <= i < 2 * |words| => if i % 2 == 0 then Low(words[i / 2]) else High(words[i / 2]))
  }

  /** A word leaves memory low byte first. */
  lemma FrameBytesAre(words: seq<bv16>, k: nat)
    requires k < |words|
    ensures FrameBytes(words)[2 * k] as int == words[k] as int % 256
    ensures FrameBytes(words)[2 * k + 1] as int == words[k] as int / 256
  {
    BytesOf(words[k]);
  }

  /** So a colour that is stored with its bytes exchanged arrives high byte first. */
  lemma ColorOnTheWire(words: seq<bv16>, k: nat, color: bv16)
    requires k < |words| && words[k] == Swapped(color)
    ensures FrameBytes(words)[2 * k] as int == color as int / 256
    ensures FrameBytes(words)[2 * k + 1] as int == color as int % 256
  {
    hide Swapped, FrameBytes;
    FrameBytesAre(words, k);
    SwappedHalves(color);
  }

  /** Where the two bytes of pixel (c, r) are in what the display receives. */
  lemma PixelSent(before: seq<Item>, words: seq<bv16>, c: int, r: int)
    requires |words| == 57600 && 0 <= c < 240 && 0 <= r < 240
    ensures var after, k := before + Tagged(FrameBytes(words), true), c + 240 * r;
      && |after| == |before| + 115200 && after[..|before|] == before
      && after[|before| + 2 * k] == Data((words[k] as int % 256) as byte)
      && after[|before| + 2 * k + 1] == Data((words[k] as int / 256) as byte)
  {
    hide FrameBytes;
    FrameBytesAre(words, c + 240 * r);
  }

  lemma Painted(word: bv16, color: bv16)
    requires word == Swapped(color)
    ensures (word as int % 256) as byte == (color as int / 256) as byte
    ensures (word as int / 256) as byte == (color as int % 256) as byte
  {
    hide Swapped;
    SwappedHalves(color);
  }

  /** What the display has received of each pixel after the whole buffer was sent. */
  lemma ScreenSent(before: seq<Item>, after: seq<Item>, frame: array<bv16>)
    requires frame.Length == 57600 && after == before + Tagged(FrameBytes(frame[..]), true)
    ensures |after| == |before| + 115200 && after[..|before|] == before
    ensures forall c, r | 0 <= c < 240 && 0 <= r < 240 ::
              && after[|before| + 2 * (c + 240 * r)] == Data((Px(frame, c, r) as int % 256) as byte)
              && after[|before| + 2 * (c + 240 * r) + 1] == Data((Px(frame, c, r) as int / 256) as byte)
  {
    hide Tagged, FrameBytes;
    PixelSent(before, frame[..], 0, 0);
    forall c, r | 0 <= c < 240 && 0 <= r < 240
      ensures after[|before| + 2 * (c + 240 * r)] == Data((Px(frame, c, r) as int % 256) as byte)
      ensures after[|before| + 2 * (c + 240 * r) + 1] == Data((Px(frame, c, r) as int / 256) as byte)
    {
      PixelSent(before, frame[..], c, r);
    }
  }

  /** And of each pixel of a rectangle that has one colour. */
  lemma RectangleSent(before: seq<Item>, after: seq<Item>, frame: array<bv16>, x: nat, y: nat, w: nat, h: nat,
                      color: bv16)
    requires frame.Length == 57600 && after == before + Tagged(FrameBytes(frame[..]), true)
    requires forall c, r | 0 <= c < 240 && 0 <= r < 240 && x <= c < x + w && y <= r < y + h ::
               Px(frame, c, r) == Swapped(color)
    ensures |after| == |before| + 115200
    ensures forall c, r | 0 <= c < 240 && 0 <= r < 240 && x <= c < x + w && y <= r < y + h ::
              && Px(frame, c, r) == Swapped(color)
              && after[|before| + 2 * (c + 240 * r)] == Data((color as int / 256) as byte)
              && after[|before| + 2 * (c + 240 * r) + 1] == Data((color as int % 256) as byte)
  {
    hide Tagged, FrameBytes, Swapped;
    PixelSent(before, frame[..], 0, 0);
    forall c, r | 0 <= c < 240 && 0 <= r < 240 && x <= c < x + w && y <= r < y + h
      ensures Px(frame, c, r) == Swapped(color)
      ensures after[|before| + 2 * (c + 240 * r)] == Data((color as int / 256) as byte)
      ensures after[|before| + 2 * (c + 240 * r) + 1] == Data((color as int % 256) as byte)
    {
      PixelSent(before, frame[..], c, r);
      Painted(Px(frame, c, r), color);
    }
  }

  // ---------- the driver ----------

  class Bus {
    var log: seq<Event>

    method Emit(e: Event)
      modifies this
      ensures log == old(log) + [e]
    {
      log := log + [e];
    }

    method WriteCommand(cmd: byte)
      modifies this
      ensures log == old(log) + [Dc(false), Spi([cmd])]
      ensures Received(log) == Received(old(log)) + [Cmd(cmd)]
    {
      ReceivedNext(log, Dc(false));
      ReceivedNext(log + [Dc(false)], Spi([cmd]));
      Emit(Dc(false));
      Emit(Spi([cmd]));
      assert log == old(log) + [Dc(false)] + [Spi([cmd])];
    }

    method WriteData(data: seq<byte>)
      modifies this
      ensures log == old(log) + [Dc(true)] + Pieces(data)
      ensures Received(log) == Received(old(log)) + Tagged(data, true)
    {
      hide *;
      var i: nat, size: nat := 0, |data|;
      Emit(Dc(true));
      ghost var start := log;
      assert data[0..] == data;
      while size > DATA_SIZE
        invariant i + size == |data|
        invariant log + Pieces(data[i..]) == start + Pieces(data)
      {
        PiecesNext(data[i..]);
        assert data[i..][..DATA_SIZE] == data[i..i + DATA_SIZE];
        assert data[i..][DATA_SIZE..] == data[i + DATA_SIZE..];
        Associative(log, [Spi(data[i..i + DATA_SIZE])], Pieces(data[i + DATA_SIZE..]));
        Emit(Spi(data[i..i + DATA_SIZE]));
        i := i + DATA_SIZE;
        size := size - DATA_SIZE;
      }
      PiecesNext(data[i..]);
      assert data[i..i + size] == data[i..];
      Emit(Spi(data[i..i + size]));
      DcReceived(old(log));
      PiecesAreData(start, data);
    }

    /** Sends the first `count` commands of the table, whose bytes it reads from front to back. */
    method InitDisplayInternal(table: seq<byte>, count: nat) returns (position: nat)
      requires Parse(table, count).Parsed?
      modifies this
      ensures Received(log) == Received(old(log)) + Effects(Parse(table, count).cmds)
      ensures position <= |table| && table[position..] == Parse(table, count).rest
    {
      hide Parse, Received, Effects, Effect, Tagged, Pieces, Level, Flat;
      ghost var all, rest := Parse(table, count).cmds, Parse(table, count).rest;
      FlatParse(table, count);
      NoEffects();
      var left := count;
      position := 0;
      assert table[0..] == table && all[..0] == [];
      while left > 0
        invariant 0 <= left <= count && position <= |table|
        invariant Parse(table[position..], left) == Parsed(all[count - left..], rest)
        invariant Received(log) == Received(old(log)) + Effects(all[..count - left])
      {
        ParseNext(table, position, left, all, count - left, rest);
        EffectsNext(all, count - left);
        ghost var cmd, before := all[count - left], Received(log);
        left := left - 1;
        var op := table[position];
        var numArgs := table[position + 1];
        var delay := table[position + 2];
        position := position + 3;
        WriteCommand(op);
        ghost var sent := Received(log);
        if numArgs != 0 {
          WriteData(table[position..position + numArgs as nat]);
          position := position + 1;
          position := position + (numArgs as nat - 1);
        }
        ghost var filled := Received(log);
        if delay != 0 {
          PauseReceived(log, delay as nat);
          Emit(Sleep(delay as nat));
        }
        EffectIs(cmd, before, sent, filled, Received(log));
      }
      assert all[..count] == all;
      assert table[position..] == rest by {
        ParseNone(table[position..]);
      }
    }

    /** Sends the whole frame buffer; a word goes out low byte first, as a little-endian machine stores it. */
    method UpdateScreen(frame: array<bv16>)
      requires frame.Length == SIZE
      modifies this
      ensures Received(log) == Received(old(log)) + Tagged(FrameBytes(frame[..]), true)
      ensures var before, after := Received(old(log)), Received(log);
        && |after| == |before| + 115200 && after[..|before|] == before
        && forall c, r | 0 <= c < 240 && 0 <= r < 240 ::
             && after[|before| + 2 * (c + 240 * r)] == Data((Px(frame, c, r) as int % 256) as byte)
             && after[|before| + 2 * (c + 240 * r) + 1] == Data((Px(frame, c, r) as int / 256) as byte)
    {
      hide Received, Tagged, FrameBytes;
      var bytes := FrameBytes(frame[..]);
      ghost var before := Received(log);
      WriteData(bytes);
      ScreenSent(before, Received(log), frame);
    }

    /** Fills a rectangle and sends the whole screen; a rectangle that does not begin on the screen sends nothing.  What
        the display receives of each pixel is in `ScreenSent`, and for the rectangle in `RectangleSent`. */
    method FillRectangle(frame: array<bv16>, x: nat, y: nat, width: nat, height: nat, color: bv16)
      requires frame.Length == SIZE && FillInBounds(x, y, width, height)
      modifies this, frame
      ensures x >= 240 || y >= 240 ==> log == old(log) && frame[..] == old(frame[..])
      ensures forall c, r | 0 <= c < 240 && 0 <= r < 240 ::
                Px(frame, c, r) == if (x <= c < x + width && y <= r < y + height)
                                      || (x < 240 && y < 240 && x + width == 241 && c == 0 && y < r <= y + height)
                                   then Swapped(color) else old(Px(frame, c, r))
      ensures x < 240 && y < 240 ==> Received(log) == Received(old(log)) + Tagged(FrameBytes(frame[..]), true)
    {
      hide Swapped, Received, FillInBounds, FillWrites, Tagged, FrameBytes;
      FrameBuffer.FillRectangle(frame, x, y, width, height, color);
      if x >= WIDTH || y >= HEIGHT {
        return;
      }
      UpdateScreen(frame);
    }
  }
}
