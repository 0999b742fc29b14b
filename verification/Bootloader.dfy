/**
 The receiving end in the bootloader's `receive_and_program`: reading frames off the serial line, checking and
 acknowledging them, collecting their bytes in a page and programming full pages into flash.
 */
module Bootloader {
  import opened Prelude
  import opened Crc16
  import opened Xmodem

  const PAGE_SIZE := 0x2000
  const APP_BASE := 0x08008000
  const FLASH_END := 0x08000000 + 3200 * 1024
  /** The flash above the bootloader. */
  const ROOM := FLASH_END - APP_BASE

  datatype Status = Serving | Failed | Programmed

  /** The receiver's variables. `flash` is what has been programmed so far, so that the next page goes to
      `APP_BASE + |flash|`; `page` is the filled part of the page buffer. */
  datatype Device = Device(status: Status, expected: bv8, flash: seq<bv8>, page: seq<bv8>, gotAny: bool)

  /** The device when the first 'C' goes out. */
  const FRESH := Device(Serving, 1, [], [], false)

  /** What the receiver makes of the line: an idle period, or what follows from the next byte it takes for a mark. */
  datatype Arrival =
    | Quiet
    | End
    | Cancel
    | Frame(number: bv8, complement: bv8, data: seq<bv8>, high: bv8, low: bv8)

  // ---------------------------------------------------------------------------------------------
  // Flash
  // ---------------------------------------------------------------------------------------------

  function Blank(n: nat): (s: seq<bv8>)
    ensures |s| == n && forall i :: 0 <= i < n ==> s[i] == 0xff
  {
    if n == 0 then [] else Blank(n - 1) + [0xff]
  }

  /** The flush closure. `works` says of each page, by its distance from `APP_BASE`, whether the flash controller
      erases and programs it. */
  function Flush(d: Device, works: nat -> bool): Option<Device> {
    if d.page == [] then Some(d)
    else if APP_BASE + |d.flash| + PAGE_SIZE > FLASH_END || !works(|d.flash|) then None
    else Some(d.(flash := d.flash + d.page + Blank(if |d.page| <= PAGE_SIZE then PAGE_SIZE - |d.page| else 0), page := []))
  }

  /** One byte of an accepted frame. */
  function StoreByte(d: Device, b: bv8, works: nat -> bool): Option<Device> {
    if |d.page| != PAGE_SIZE then Some(d.(page := d.page + [b]))
    else match Flush(d, works)
      case Some(e) => Some(e.(page := e.page + [b]))
      case None => None
  }

  function Store(d: Device, data: seq<bv8>, works: nat -> bool): Option<Device>
    decreases |data|
  {
    if data == [] then Some(d)
    else match StoreByte(d, data[0], works)
      case Some(e) => Store(e, data[1..], works)
      case None => None
  }

  // ---------------------------------------------------------------------------------------------
  // One turn of the loop
  // ---------------------------------------------------------------------------------------------

  /** The device after a turn, and what it sent. */
  datatype Turn = Turn(device: Device, replies: seq<bv8>)

  function Preceding(number: bv8): bv8 { number - 1 }

  function Following(number: bv8): bv8 { number + 1 }

  /** The check on a block number and its complement. */
  predicate Complementary(number: bv8, complement: bv8) { number + complement == 0xff }

  /** The check on a frame. It leaves the mark out, and covers the number only by its complement. */
  predicate Passes(frame: Arrival)
    requires frame.Frame?
  {
    Complementary(frame.number, frame.complement) && Word(frame.high, frame.low) == Crc(frame.data)
  }

  function TakeFrame(d: Device, frame: Arrival, works: nat -> bool): Turn
    requires frame.Frame?
  {
    if !Passes(frame) then Turn(d, [NAK])
    else if frame.number == Preceding(d.expected) then Turn(d, [ACK])
    else if frame.number != d.expected then Turn(d, [NAK])
    else match Store(d, frame.data, works)
      case Some(e) => Turn(e.(expected := Following(d.expected), gotAny := true), [ACK])
      case None => Turn(d.(status := Failed), [CAN])
  }

  function Finish(d: Device, works: nat -> bool): Turn {
    if !d.gotAny then Turn(d, [NAK])
    else match Flush(d, works)
      case Some(e) => Turn(e.(status := Programmed), [ACK])
      case None => Turn(d.(status := Failed), [CAN])
  }

  function Step(d: Device, arrival: Arrival, works: nat -> bool): Turn {
    if d.status != Serving then Turn(d, [])
    else match arrival
      case Quiet => Turn(d, [CRC_NAK])
      case End => Finish(d, works)
      case Cancel => Turn(d.(status := Failed), [])
      case Frame(_, _, _, _, _) => TakeFrame(d, arrival, works)
  }

  function Obey(d: Device, arrivals: seq<Arrival>, works: nat -> bool): Turn
    decreases |arrivals|
  {
    if arrivals == [] then Turn(d, [])
    else
      var first := Step(d, arrivals[0], works);
      var rest := Obey(first.device, arrivals[1..], works);
      Turn(rest.device, first.replies + rest.replies)
  }

  // ---------------------------------------------------------------------------------------------
  // Reading the line
  // ---------------------------------------------------------------------------------------------

  /** The serial line over time: a byte, or a period of silence as long as the receiver waits for a mark. */
  datatype Event = Idle | Got(byte: bv8)

  datatype Taken = Starved | Taken(bytes: seq<bv8>, next: nat)

  /** `n` blocking reads from position `pos`: silence is waited out, and the line may end first. */
  function Take(line: seq<Event>, pos: nat, n: nat): (t: Taken)
    requires pos <= |line|
    ensures t.Taken? ==> |t.bytes| == n && pos <= t.next <= |line|
    decreases |line| - pos
  {
    if n == 0 then Taken([], pos)
    else if pos == |line| then Starved
    else if line[pos].Idle? then Take(line, pos + 1, n)
    else match Take(line, pos + 1, n - 1)
      case Taken(bytes, next) => Taken([line[pos].byte] + bytes, next)
      case Starved => Starved
  }

  function BlockSize(mark: bv8): nat {
    if mark == STX then 1024 else 128
  }

  function ToFrame(bytes: seq<bv8>): Arrival
    requires |bytes| >= 4
  {
    Frame(bytes[0], bytes[1], bytes[2..|bytes| - 2], bytes[|bytes| - 2], bytes[|bytes| - 1])
  }

  /** What the receiver makes of the line from `pos` on, up to a frame that the line does not complete. */
  function Lex(line: seq<Event>, pos: nat): (arrivals: seq<Arrival>)
    requires pos <= |line|
    decreases |line| - pos
  {
    if pos == |line| then []
    else if line[pos].Idle? then [Quiet] + Lex(line, pos + 1)
    else
      var mark := line[pos].byte;
      if mark == EOT then [End] + Lex(line, pos + 1)
      else if mark == CAN then [Cancel] + Lex(line, pos + 1)
      else if mark != STX && mark != SOH then Lex(line, pos + 1)
      else match Take(line, pos + 1, BlockSize(mark) + 4)
        case Taken(bytes, next) => [ToFrame(bytes)] + Lex(line, next)
        case Starved => []
  }

  // ---------------------------------------------------------------------------------------------
  // The code
  // ---------------------------------------------------------------------------------------------

  /** Blocking reads. */
  method ReadBytes(line: seq<Event>, pos: nat, n: nat) returns (taken: Taken)
    requires pos <= |line|
    ensures taken == Take(line, pos, n)
  {
    var bytes, at := [], pos;
    while |bytes| < n && at < |line|
      invariant pos <= at <= |line| && |bytes| <= n
      invariant Take(line, pos, n) == match Take(line, at, n - |bytes|) {
                                        case Taken(more, next) => Taken(bytes + more, next)
                                        case Starved => Starved
                                      }
      decreases |line| - at
    {
      if line[at].Got? {
        ghost var more := Take(line, at + 1, n - |bytes| - 1);
        assert more.Taken? ==> bytes + ([line[at].byte] + more.bytes) == bytes + [line[at].byte] + more.bytes;
        bytes := bytes + [line[at].byte];
      }
      at := at + 1;
    }
    taken := if |bytes| == n then Taken(bytes, at) else Starved;
    assert bytes + [] == bytes;
  }

  /** The copying loop for an accepted frame. */
  method CopyFrame(d: Device, data: seq<bv8>, works: nat -> bool) returns (stored: Option<Device>)
    ensures stored == Store(d, data, works)
  {
    hide Flush;
    var e := d;
    var i := 0;
    assert data[0..] == data;
    while i < |data|
      invariant 0 <= i <= |data| && Store(e, data[i..], works) == Store(d, data, works)
    {
      assert data[i..][1..] == data[i + 1..];
      if |e.page| == PAGE_SIZE {
        var flushed := Flush(e, works);
        if flushed.None? {
          return None;
        }
        e := flushed.value;
      }
      e := e.(page := e.page + [data[i]]);
      i := i + 1;
    }
    stored := Some(e);
  }

  /** One frame, read and acted on. */
  method AcceptFrame(d: Device, frame: Arrival, works: nat -> bool) returns (turn: Turn)
    requires d.status == Serving && frame.Frame?
    ensures turn == Step(d, frame, works)
  {
    hide Store, Crc, Word, Preceding, Following, Complementary;
    var crc := Crc16Xmodem(frame.data);
    if !Complementary(frame.number, frame.complement) || Word(frame.high, frame.low) != crc {
      return Turn(d, [NAK]);
    }
    if frame.number == Preceding(d.expected) {
      return Turn(d, [ACK]);
    }
    if frame.number != d.expected {
      return Turn(d, [NAK]);
    }
    var stored := CopyFrame(d, frame.data, works);
    match stored
    case None => turn := Turn(d.(status := Failed), [CAN]);
    case Some(e) => turn := Turn(e.(expected := Following(d.expected), gotAny := true), [ACK]);
  }

  lemma {:induction false} ObeyStopped(d: Device, arrivals: seq<Arrival>, works: nat -> bool)
    requires d.status != Serving
    ensures Obey(d, arrivals, works) == Turn(d, [])
    decreases |arrivals|
  {
    if arrivals != [] { ObeyStopped(d, arrivals[1..], works); }
  }

  /** The run so far and the run from here on. */
  ghost predicate Continues(line: seq<Event>, pos: nat, turn: Turn, works: nat -> bool)
    requires pos <= |line|
  {
    var rest := Obey(turn.device, Lex(line, pos), works);
    Obey(FRESH, Lex(line, 0), works) == Turn(rest.device, turn.replies + rest.replies)
  }

  lemma OneMore(line: seq<Event>, pos: nat, next: nat, turn: Turn, arrival: Arrival, works: nat -> bool)
    requires pos < next <= |line| && Continues(line, pos, turn, works) && Lex(line, pos) == [arrival] + Lex(line, next)
    ensures var step := Step(turn.device, arrival, works);
            Continues(line, next, Turn(step.device, turn.replies + step.replies), works)
  {
    var step, rest := Step(turn.device, arrival, works), Lex(line, next);
    var last := Obey(step.device, rest, works);
    hide Step, Lex;
    assert ([arrival] + rest)[1..] == rest;
    assert turn.replies + (step.replies + last.replies) == turn.replies + step.replies + last.replies;
  }

  lemma Ended(line: seq<Event>, pos: nat, turn: Turn, works: nat -> bool)
    requires pos <= |line| && Continues(line, pos, turn, works) && (turn.device.status != Serving || Lex(line, pos) == [])
    ensures Obey(FRESH, Lex(line, 0), works) == turn
  {
    hide Lex, Step;
    if turn.device.status != Serving { ObeyStopped(turn.device, Lex(line, pos), works); }
    assert turn.replies + [] == turn.replies;
  }

  /** One pass through the receiver's loop, with `pos` before the end of the line. `more` tells whether the loop goes
      on. */
  method Pass(line: seq<Event>, pos: nat, d: Device, works: nat -> bool) returns (turn: Turn, next: nat, more: bool)
    requires pos < |line| && d.status == Serving
    ensures more ==> pos < next <= |line|
    ensures more ==> || (turn == Turn(d, []) && Lex(line, pos) == Lex(line, next))
                     || exists arrival :: Lex(line, pos) == [arrival] + Lex(line, next) && turn == Step(d, arrival, works)
    ensures !more ==> turn == Turn(d, []) && Lex(line, pos) == []
  {
    hide Finish, TakeFrame;
    turn, next, more := Turn(d, []), pos + 1, true;
    ghost var tail := Lex(line, pos + 1);
    if line[pos].Idle? {
      turn := Turn(d, [CRC_NAK]);
      assert Lex(line, pos) == [Quiet] + tail;
      return;
    }
    var mark := line[pos].byte;
    if mark == EOT {
      turn := Finish(d, works);
      assert Lex(line, pos) == [End] + tail;
      return;
    }
    if mark == CAN {
      turn := Turn(d.(status := Failed), []);
      assert Lex(line, pos) == [Cancel] + tail;
      return;
    }
    if mark != STX && mark != SOH {
      return;
    }
    var taken := ReadBytes(line, pos + 1, BlockSize(mark) + 4);
    match taken
    case Starved => more := false;
    case Taken(bytes, after) =>
      turn := AcceptFrame(d, ToFrame(bytes), works);
      next := after;
  }

  lemma LexEnd(line: seq<Event>)
    ensures Lex(line, |line|) == []
  {
  }

  lemma Started(line: seq<Event>, works: nat -> bool)
    ensures Continues(line, 0, Turn(FRESH, []), works)
  {
    hide Lex, Obey;
    var run := Obey(FRESH, Lex(line, 0), works);
    assert [] + run.replies == run.replies;
  }

  lemma Advanced(line: seq<Event>, pos: nat, next: nat, turn: Turn, one: Turn, works: nat -> bool)
    requires pos < next <= |line| && Continues(line, pos, turn, works)
    requires || (one == Turn(turn.device, []) && Lex(line, pos) == Lex(line, next))
             || exists arrival :: Lex(line, pos) == [arrival] + Lex(line, next)
                                  && one == Step(turn.device, arrival, works)
    ensures Continues(line, next, Turn(one.device, turn.replies + one.replies), works)
  {
    hide Lex, Step;
    if one == Turn(turn.device, []) && Lex(line, pos) == Lex(line, next) {
      assert turn.replies + [] == turn.replies;
    } else {
      var arrival :| Lex(line, pos) == [arrival] + Lex(line, next) && one == Step(turn.device, arrival, works);
      OneMore(line, pos, next, turn, arrival, works);
    }
  }

  /** `receive_and_program`: what it has sent and where it stands when the line has nothing more. */
  method ReceiveAndProgram(line: seq<Event>, works: nat -> bool) returns (turn: Turn)
    ensures turn == Obey(FRESH, Lex(line, 0), works)
  {
    hide Lex, Step, Obey;
    turn := Turn(FRESH, []);
    var pos, more := 0, true;
    Started(line, works);
    while more && pos < |line| && turn.device.status == Serving
      invariant 0 <= pos <= |line| && Continues(line, pos, turn, works)
      invariant !more ==> Lex(line, pos) == []
      decreases more, |line| - pos
    {
      ghost var before := pos;
      var one, next, on := Pass(line, pos, turn.device, works);
      more := on;
      if on {
        ghost var was := turn;
        turn := Turn(one.device, turn.replies + one.replies);
        pos := next;
        Advanced(line, before, next, was, one, works);
      }
    }
    LexEnd(line);
    Ended(line, pos, turn, works);
  }
}
