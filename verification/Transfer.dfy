/**
 The framing and the bootloader together: what the device has programmed after any sequence of blocks, and the whole
 wire format read back byte by byte.
 */
module Transfer {
  import opened Prelude
  import opened Crc16
  import opened Xmodem
  import opened Bootloader

  // ---------------------------------------------------------------------------------------------
  // Pages
  // ---------------------------------------------------------------------------------------------

  /** How many of `n` stored bytes are in flash before the final flush: a full page waits for the next byte. */
  function Flushed(n: nat): (k: nat)
    ensures k <= n <= k + PAGE_SIZE
  {
    if n <= PAGE_SIZE then 0 else PAGE_SIZE + Flushed(n - PAGE_SIZE)
  }

  lemma {:induction false} FlushedStep(n: nat)
    ensures Flushed(n + 1) == if n == Flushed(n) + PAGE_SIZE then n else Flushed(n)
  {
    if n > PAGE_SIZE { FlushedStep(n - PAGE_SIZE); }
  }

  /** Whether the pages that make up the first `n` bytes of the application area exist and can be programmed. */
  predicate Writable(n: nat, works: nat -> bool)
    decreases n
  {
    n < PAGE_SIZE || (n <= ROOM && works(n - PAGE_SIZE) && Writable(n - PAGE_SIZE, works))
  }

  lemma {:induction false} WritableFewer(m: nat, n: nat, works: nat -> bool)
    requires m <= n && Writable(Flushed(n), works)
    ensures Writable(Flushed(m), works)
    decreases n
  {
    if m < n {
      FlushedStep(n - 1);
      WritableFewer(m, n - 1, works);
    }
  }

  /** The number of whole pages in flash while `n` bytes are held. */
  function PagesBehind(n: nat): nat {
    if n <= PAGE_SIZE then 0 else 1 + PagesBehind(n - PAGE_SIZE)
  }

  lemma {:induction false} FlushedIsPages(n: nat)
    ensures Flushed(n) == 0x2000 * PagesBehind(n)
    ensures n > 0 ==> 0x2000 * PagesBehind(n) < n <= 0x2000 * (PagesBehind(n) + 1)
  {
    if n > PAGE_SIZE { FlushedIsPages(n - PAGE_SIZE); }
  }

  lemma {:induction false} WritableAll(pages: nat, works: nat -> bool)
    requires forall at :: works(at)
    ensures Writable(0x2000 * pages, works) <==> pages <= 396
  {
    if pages > 0 { WritableAll(pages - 1, works); }
  }

  /** How much fits: with every page in working order, up to 396 pages of 8 KiB. */
  lemma CapacityExact(n: nat, works: nat -> bool)
    requires n > 0 && forall at :: works(at)
    ensures Writable(Flushed(n) + PAGE_SIZE, works) <==> n <= 396 * 8192
  {
    FlushedIsPages(n);
    WritableAll(PagesBehind(n) + 1, works);
    hide Flushed, PagesBehind, Writable;
  }

  /** The device holds exactly `content`, in whole pages of flash and one page of buffer. */
  predicate Holds(d: Device, content: seq<bv8>) {
    d.flash + d.page == content && |d.flash| == Flushed(|content|)
  }

  /** Only the storage differs. */
  predicate SameControl(d: Device, e: Device) {
    d.status == e.status && d.expected == e.expected && d.gotAny == e.gotAny
  }

  lemma FlushExact(d: Device, content: seq<bv8>, works: nat -> bool)
    requires Holds(d, content) && content != [] && Writable(Flushed(|content|), works)
    ensures Flush(d, works).Some? <==> Writable(Flushed(|content|) + PAGE_SIZE, works)
    ensures Flush(d, works).Some? ==>
              && SameControl(d, Flush(d, works).value)
              && Flush(d, works).value.page == []
              && Flush(d, works).value.flash == Image(content)
  {
    FlushedStep(|content| - 1);
    assert |d.page| == |content| - Flushed(|content|);
    assert |d.page| > 0;
  }

  /** What flash holds after the final flush: the content, erased bytes up to the end of its last page. */
  function Image(content: seq<bv8>): seq<bv8> {
    content + Blank(Flushed(|content|) + PAGE_SIZE - |content|)
  }

  lemma StoreByteExact(d: Device, content: seq<bv8>, b: bv8, works: nat -> bool)
    requires Holds(d, content) && Writable(Flushed(|content|), works)
    ensures StoreByte(d, b, works).Some? <==> Writable(Flushed(|content| + 1), works)
    ensures StoreByte(d, b, works).Some? ==>
              SameControl(d, StoreByte(d, b, works).value) && Holds(StoreByte(d, b, works).value, content + [b])
  {
    hide Flush, Image;
    FlushedStep(|content|);
    if |d.page| == PAGE_SIZE {
      FlushExact(d, content, works);
      ImageOfPages(content);
    } else {
      assert d.flash + (d.page + [b]) == content + [b];
    }
  }

  lemma ImageOfPages(content: seq<bv8>)
    ensures |content| == Flushed(|content|) + PAGE_SIZE ==> Image(content) == content
  {
  }

  lemma {:induction false} StoreExact(d: Device, content: seq<bv8>, data: seq<bv8>, works: nat -> bool)
    requires Holds(d, content) && Writable(Flushed(|content|), works)
    ensures Store(d, data, works).Some? <==> Writable(Flushed(|content| + |data|), works)
    ensures Store(d, data, works).Some? ==>
              SameControl(d, Store(d, data, works).value) && Holds(Store(d, data, works).value, content + data)
    decreases |data|
  {
    hide StoreByte, Writable, Flushed;
    if data == [] {
      assert content + data == content;
    } else {
      StoreByteExact(d, content, data[0], works);
      assert content + [data[0]] + data[1..] == content + data;
      match StoreByte(d, data[0], works)
      case Some(e) =>
        StoreExact(e, content + [data[0]], data[1..], works);
      case None =>
        if Writable(Flushed(|content| + |data|), works) {
          WritableFewer(|content| + 1, |content| + |data|, works);
        }
    }
  }

  // ---------------------------------------------------------------------------------------------
  // Frames
  // ---------------------------------------------------------------------------------------------

  /** The frame that a packet carries. */
  function FrameOf(number: bv8, data: seq<bv8>): Arrival {
    Frame(number, 0xff - number, data, High(Crc(data)), LowByte(Crc(data)))
  }

  lemma FramePasses(number: bv8, data: seq<bv8>)
    ensures Passes(FrameOf(number, data))
  {
    hide Crc, Word;
    WordOfBytes(Crc(data));
    ComplementOf(number);
  }

  lemma ComplementOf(number: bv8)
    ensures Complementary(number, 0xff - number)
  {
  }

  lemma ByteValue(a: bv8, b: bv8)
    ensures Value(a) == Value(b) <==> a == b
  {
  }

  lemma ComplementValue(number: bv8)
    ensures Value(0xff - number) == 255 - Value(number)
  {
  }

  lemma ComplementaryIs(number: bv8, complement: bv8)
    ensures Complementary(number, complement) <==> Value(number) + Value(complement) == 255
  {
    assert Complementary(number, complement) <==> complement == 0xff - number;
    ComplementValue(number);
    ByteValue(complement, 0xff - number);
    hide Value;
  }

  /** The check lets a frame pass exactly when its number and complement, as numbers, make 255, and its block and CRC
      bytes together leave a zero register. */
  lemma PassesExact(frame: Arrival)
    requires frame.Frame?
    ensures Passes(frame) <==>
            Value(frame.number) + Value(frame.complement) == 255 && Crc(frame.data + [frame.high, frame.low]) == 0
  {
    ComplementaryIs(frame.number, frame.complement);
    ResidueExact(frame.data, frame.high, frame.low);
    hide Crc, Value, Word;
  }

  /** The frame as it was sent, but for its number or for its complement. */
  predicate Relabelled(number: bv8, data: seq<bv8>, frame: Arrival) {
    var sent := FrameOf(number, data);
    frame.Frame? && frame != sent
    && (frame == sent.(number := frame.number) || frame == sent.(complement := frame.complement))
  }

  /** Damage to either of the two, whatever it is, is refused and changes nothing. */
  lemma RelabelledRefused(d: Device, number: bv8, data: seq<bv8>, frame: Arrival, works: nat -> bool)
    requires Relabelled(number, data, frame)
    ensures !Passes(frame)
    ensures d.status == Serving ==> Step(d, frame, works) == Turn(d, [0x15])
  {
    hide Crc, High, LowByte, Word;
    ComplementaryIs(frame.number, frame.complement);
    ComplementValue(number);
    ByteValue(frame.number, number);
    ByteValue(frame.complement, 0xff - number);
    hide Value, Complementary;
  }

  lemma NumberBefore(number: bv8)
    ensures Preceding(Following(number)) == number && Preceding(number) != number
  {
  }

  lemma NextNumber(k: nat)
    ensures BlockNumber(k + 1) == Following(BlockNumber(k))
  {
  }

  /** The device has taken `k` blocks, holding `content`, and waits for the next. */
  ghost predicate Ready(d: Device, content: seq<bv8>, k: nat, works: nat -> bool) {
    && d.status == Serving
    && d.expected == BlockNumber(k)
    && (d.gotAny <==> k > 0)
    && (content == [] <==> k == 0)
    && Holds(d, content)
    && Writable(Flushed(|content|), works)
  }

  /** The block that is due is stored and acknowledged, or the device gives up for want of flash. */
  lemma DueFrame(d: Device, content: seq<bv8>, k: nat, data: seq<bv8>, works: nat -> bool)
    requires Ready(d, content, k, works) && data != []
    ensures var turn := Step(d, FrameOf(BlockNumber(k), data), works);
            if Writable(Flushed(|content| + |data|), works)
            then turn.replies == [ACK] && Ready(turn.device, content + data, k + 1, works)
            else turn.replies == [CAN] && turn.device.status == Failed
  {
    FramePasses(BlockNumber(k), data);
    NumberBefore(BlockNumber(k));
    NextNumber(k);
    hide Store, Passes, Flushed, Writable, Preceding, Following, BlockNumber, Crc, High, LowByte;
    assert |content + data| == |content| + |data|;
    StoreExact(d, content, data, works);
  }

  /** The block taken last is acknowledged again and changes nothing. */
  lemma RepeatedFrame(d: Device, content: seq<bv8>, k: nat, data: seq<bv8>, works: nat -> bool)
    requires Ready(d, content, k + 1, works)
    ensures Step(d, FrameOf(BlockNumber(k), data), works) == Turn(d, [ACK])
  {
    FramePasses(BlockNumber(k), data);
    NumberBefore(BlockNumber(k));
    NextNumber(k);
    hide Store, Passes, Flushed, Writable, Preceding, Following, BlockNumber, Crc, High, LowByte, Holds;
  }

  /** The end of the transfer programs the last page, or the device gives up for want of flash. */
  lemma EndArrives(d: Device, content: seq<bv8>, k: nat, works: nat -> bool)
    requires Ready(d, content, k, works) && k > 0
    ensures var turn := Step(d, End, works);
            if Writable(Flushed(|content|) + PAGE_SIZE, works)
            then turn.replies == [0x06] && turn.device.status == Programmed && turn.device.flash == Image(content)
            else turn.replies == [0x18] && turn.device.status == Failed
  {
    hide Flush, Flushed, Writable, BlockNumber, Image, Holds;
    FlushExact(d, content, works);
  }

  // ---------------------------------------------------------------------------------------------
  // An undisturbed line
  // ---------------------------------------------------------------------------------------------

  function Frames(blocks: seq<seq<bv8>>, from: nat): (frames: seq<Arrival>)
    ensures |frames| == |blocks|
  {
    if blocks == [] then [] else [FrameOf(BlockNumber(from), blocks[0])] + Frames(blocks[1..], from + 1)
  }

  predicate AllBlocks(blocks: seq<seq<bv8>>) {
    forall i :: 0 <= i < |blocks| ==> |blocks[i]| == BLOCK_SIZE
  }

  function Acks(n: nat): seq<bv8> {
    if n == 0 then [] else [0x06] + Acks(n - 1)
  }

  /** How a run ends that had `content` to program, in that many blocks. */
  ghost predicate Outcome(turn: Turn, content: seq<bv8>, blocks: nat, works: nat -> bool) {
    if Writable(Flushed(|content|) + PAGE_SIZE, works)
    then turn.device.status == Programmed && turn.device.flash == Image(content) && turn.replies == Acks(blocks + 1)
    else turn.device.status == Failed
  }

  lemma FullWritable(content: seq<bv8>, more: seq<bv8>, works: nat -> bool)
    requires Writable(Flushed(|content + more|) + PAGE_SIZE, works)
    ensures Writable(Flushed(|content + more|), works) && Writable(Flushed(|content|), works)
  {
    WritableFewer(|content|, |content + more|, works);
  }

  lemma FirstFrame(blocks: seq<seq<bv8>>, from: nat, tail: seq<Arrival>)
    requires blocks != []
    ensures var all := Frames(blocks, from) + tail;
            all != [] && all[0] == FrameOf(BlockNumber(from), blocks[0])
            && all[1..] == Frames(blocks[1..], from + 1) + tail
  {
    hide FrameOf, BlockNumber;
    var all := Frames(blocks, from) + tail;
    assert all[1..] == Frames(blocks[1..], from + 1) + tail;
  }

  lemma {:induction false} BlocksThenEnd(d: Device, content: seq<bv8>, k: nat, blocks: seq<seq<bv8>>, works: nat -> bool)
    requires Ready(d, content, k, works) && AllBlocks(blocks) && k + |blocks| > 0
    ensures Outcome(Obey(d, Frames(blocks, k) + [End], works), content + Flat(blocks), |blocks|, works)
    decreases |blocks|
  {
    if blocks == [] {
      hide Flushed, Writable, Holds, Step, Image;
      assert Frames(blocks, k) + [End] == [End] && content + Flat(blocks) == content;
      EndArrives(d, content, k, works);
      assert Acks(1) == [ACK] + [];
      assert Obey(d, [End], works).replies == Step(d, End, works).replies + [];
    } else {
      hide Flushed, Writable, Holds, Step, Image, FrameOf, Ready;
      var frame := FrameOf(BlockNumber(k), blocks[0]);
      var turn := Step(d, frame, works);
      DueFrame(d, content, k, blocks[0], works);
      FirstFrame(blocks, k, [End]);
      Regrouped(content, blocks);
      if Writable(Flushed(|content| + |blocks[0]|), works) {
        BlocksThenEnd(turn.device, content + blocks[0], k + 1, blocks[1..], works);
      } else {
        ObeyStopped(turn.device, Frames(blocks[1..], k + 1) + [End], works);
        if Writable(Flushed(|content + Flat(blocks)|) + PAGE_SIZE, works) {
          FullWritable(content + blocks[0], Flat(blocks[1..]), works);
        }
      }
    }
  }

  lemma Regrouped(content: seq<bv8>, blocks: seq<seq<bv8>>)
    requires blocks != []
    ensures content + blocks[0] + Flat(blocks[1..]) == content + Flat(blocks)
  {
  }

  // The line read byte by byte.

  function Line(bytes: seq<bv8>): (line: seq<Event>)
    ensures |line| == |bytes| && forall i :: 0 <= i < |bytes| ==> line[i] == Got(bytes[i])
  {
    if bytes == [] then [] else [Got(bytes[0])] + Line(bytes[1..])
  }

  lemma {:induction false} TakeSolid(bytes: seq<bv8>, pos: nat, n: nat)
    requires pos + n <= |bytes|
    ensures Take(Line(bytes), pos, n) == Taken(bytes[pos..pos + n], pos + n)
    decreases n
  {
    hide Line;
    if n > 0 {
      TakeSolid(bytes, pos + 1, n - 1);
      assert bytes[pos..pos + n] == [bytes[pos]] + bytes[pos + 1..pos + n];
    }
  }

  lemma PacketFrame(number: bv8, data: seq<bv8>)
    ensures var packet := Packet(number, data);
            packet[0] == 0x02 && ToFrame(packet[1..]) == FrameOf(number, data)
  {
    hide Crc, High, LowByte;
    var packet := Packet(number, data);
    var bytes := packet[1..];
    var n := |data|;
    forall i | 0 <= i < |bytes| ensures bytes[i] == packet[i + 1] {
    }
    forall i | 0 <= i < n ensures bytes[2..n + 2][i] == data[i] {
      assert bytes[2..n + 2][i] == bytes[i + 2] == packet[i + 3];
    }
    assert bytes[2..n + 2] == data;
    assert bytes[n + 2] == packet[n + 3] && bytes[n + 3] == packet[n + 4];
  }

  lemma LexPacket(bytes: seq<bv8>, pos: nat, packet: seq<bv8>, next: nat)
    requires |packet| == BLOCK_SIZE + 5 && next == pos + |packet| <= |bytes| && packet[0] == STX
    requires bytes[pos..next] == packet
    ensures Lex(Line(bytes), pos) == [ToFrame(packet[1..])] + Lex(Line(bytes), next)
  {
    hide Line, Take, ToFrame;
    assert bytes[pos] == packet[0];
    assert bytes[pos + 1..next] == packet[1..];
    TakeSolid(bytes, pos + 1, BLOCK_SIZE + 4);
  }

  /** What the receiver makes of each mark, by its code, wherever the line stands: 0x04 ends the transfer, 0x18 cancels it,
      0x02 and 0x01 start a frame of 1024 or 128 bytes between a two-byte header and a two-byte CRC, silence is taken
      for itself, and any other byte is passed over. A frame that the line does not complete is waited for. */
  lemma MarksRead(line: seq<Event>, pos: nat)
    requires pos < |line|
    ensures line[pos].Idle? ==> Lex(line, pos) == [Quiet] + Lex(line, pos + 1)
    ensures line[pos] == Got(0x04) ==> Lex(line, pos) == [End] + Lex(line, pos + 1)
    ensures line[pos] == Got(0x18) ==> Lex(line, pos) == [Cancel] + Lex(line, pos + 1)
    ensures line[pos] == Got(0x02) || line[pos] == Got(0x01) ==>
              match Take(line, pos + 1, if line[pos] == Got(0x02) then 1028 else 132) {
                case Starved => Lex(line, pos) == []
                case Taken(bytes, next) => Lex(line, pos) == [ToFrame(bytes)] + Lex(line, next)
              }
    ensures line[pos].Got? && line[pos].byte !in [0x04, 0x18, 0x02, 0x01] ==> Lex(line, pos) == Lex(line, pos + 1)
  {
    hide Take, ToFrame;
  }

  /** How a device that is serving answers what is no frame: silence with `C`, an end before any block with a refusal,
      a cancellation with nothing. */
  lemma MarksAnswered(d: Device, works: nat -> bool)
    requires d.status == Serving
    ensures Step(d, Quiet, works) == Turn(d, [0x43])
    ensures !d.gotAny ==> Step(d, End, works) == Turn(d, [0x15])
    ensures Step(d, Cancel, works) == Turn(d.(status := Failed), [])
  {
  }

  /** All the bytes a sender puts on the line. */
  function Wire(packets: seq<seq<bv8>>): seq<bv8> {
    Flat(packets) + [0x04]
  }

  lemma FirstPacket(bytes: seq<bv8>, pos: nat, packets: seq<seq<bv8>>, next: nat)
    requires pos <= |bytes| && packets != [] && bytes[pos..] == Wire(packets) && next == pos + |packets[0]|
    ensures next <= |bytes| && bytes[pos..next] == packets[0] && bytes[next..] == Wire(packets[1..])
  {
    assert bytes[pos..] == packets[0] + Wire(packets[1..]);
    assert bytes[next..] == bytes[pos..][|packets[0]|..];
    assert bytes[pos..next] == bytes[pos..][..|packets[0]|];
  }

  lemma LexEot(bytes: seq<bv8>, pos: nat)
    requires pos + 1 == |bytes| && bytes[pos] == EOT
    ensures Lex(Line(bytes), pos) == [End]
  {
    hide Line;
    assert Lex(Line(bytes), pos + 1) == [];
    assert [End] + [] == [End];
  }

  lemma {:induction false} LexWire(bytes: seq<bv8>, pos: nat, blocks: seq<seq<bv8>>, from: nat)
    requires AllBlocks(blocks) && pos <= |bytes| && bytes[pos..] == Wire(Packets(blocks, BlockNumber(from)))
    ensures Lex(Line(bytes), pos) == Frames(blocks, from) + [End]
    decreases |blocks|
  {
    hide Line, Lex, Packet, FrameOf;
    if blocks == [] {
      assert bytes[pos..] == [EOT] && bytes[pos..][0] == bytes[pos];
      LexEot(bytes, pos);
      assert Frames(blocks, from) + [End] == [End];
    } else {
      var packets := Packets(blocks, BlockNumber(from));
      var next := pos + |packets[0]|;
      FirstPacket(bytes, pos, packets, next);
      PacketFrame(BlockNumber(from), blocks[0]);
      LexPacket(bytes, pos, packets[0], next);
      NextNumber(from);
      assert packets[1..] == Packets(blocks[1..], BlockNumber(from + 1));
      LexWire(bytes, next, blocks[1..], from + 1);
      assert Frames(blocks, from) + [End] == [FrameOf(BlockNumber(from), blocks[0])] + (Frames(blocks[1..], from + 1) + [End]);
    }
  }

  /** What `encode_packets` makes of any payload, put on an undisturbed line and followed by the end mark, is programmed
      to the byte and acknowledged block by block, whatever the number of blocks, exactly when the flash has room for
      it and works; otherwise the device gives up. */
  lemma WireIsProgrammed(payload: seq<bv8>, works: nat -> bool)
    ensures var line := Line(Wire(Packets(Blocks(payload), BlockNumber(0))));
            Outcome(Obey(FRESH, Lex(line, 0), works), Padded(payload), |Blocks(payload)|, works)
  {
    hide Line, Lex, Wire, Packets, Obey, Flushed;
    var blocks := Blocks(payload);
    var bytes := Wire(Packets(blocks, BlockNumber(0)));
    assert bytes[0..] == bytes;
    LexWire(bytes, 0, blocks, 0);
    FreshIsReady(works);
    hide Blocks, Frames, Padded;
    BlocksThenEnd(FRESH, [], 0, blocks, works);
    BlocksCarryPayload(payload);
    assert [] + Flat(blocks) == Flat(blocks);
  }

  lemma FreshIsReady(works: nat -> bool)
    ensures Ready(FRESH, [], 0, works)
  {
  }
}
