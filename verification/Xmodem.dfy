/**
 XMODEM-1K framing as `encode_packets` does it: the payload is cut into blocks of 1024 bytes, the last one filled up
 with 0x1A, and each block is sent between a three-byte header and its CRC.
 */
module Xmodem {
  import opened Prelude
  import opened Crc16

  const BLOCK_SIZE := 1024
  const SOH: bv8 := 0x01
  const STX: bv8 := 0x02
  const EOT: bv8 := 0x04
  const ACK: bv8 := 0x06
  const NAK: bv8 := 0x15
  const CAN: bv8 := 0x18
  const CRC_NAK: bv8 := 0x43
  const FILL: bv8 := 0x1a

  function Fill(n: nat): (s: seq<bv8>)
    ensures |s| == n && forall i :: 0 <= i < n ==> s[i] == 0x1a
  {
    if n == 0 then [] else Fill(n - 1) + [FILL]
  }

  /** The payload cut into full blocks. An empty payload is one block of filling. */
  function Blocks(payload: seq<bv8>): (blocks: seq<seq<bv8>>)
    ensures |blocks| > 0 && forall i :: 0 <= i < |blocks| ==> |blocks[i]| == BLOCK_SIZE
  {
    if |payload| <= BLOCK_SIZE then [payload + Fill(BLOCK_SIZE - |payload|)]
    else [payload[..BLOCK_SIZE]] + Blocks(payload[BLOCK_SIZE..])
  }

  /** The number of the `i`-th block: `i + 1` in byte arithmetic, which wraps around after 255. */
  function BlockNumber(i: nat): bv8 {
    if i == 0 then 1 else BlockNumber(i - 1) + 1
  }

  function Value(n: bv8): int { n as int }

  lemma Increment(n: bv8)
    ensures Value(n + 1) == if Value(n) == 255 then 0 else Value(n) + 1
  {
  }

  lemma NextModulo(i: nat)
    ensures (i + 1) % 256 == if i % 256 == 255 then 0 else i % 256 + 1
  {
  }

  /** The number on the wire is `i + 1` modulo 256. */
  lemma {:induction false} BlockNumberIs(i: nat)
    ensures Value(BlockNumber(i)) == (i + 1) % 256
  {
    if i > 0 {
      hide Value;
      BlockNumberIs(i - 1);
      Increment(BlockNumber(i - 1));
      NextModulo(i);
    }
  }

  function High(crc: bv16): bv8 { (crc >> 8) as bv8 }

  function LowByte(crc: bv16): bv8 { (crc & 0xff) as bv8 }

  lemma WordOfBytes(crc: bv16)
    ensures Word(High(crc), LowByte(crc)) == crc
  {
  }

  function Packet(number: bv8, data: seq<bv8>): (packet: seq<bv8>)
    ensures |packet| == |data| + 5
  {
    [STX, number, 0xff - number] + data + [High(Crc(data)), LowByte(Crc(data))]
  }

  /** The packets of a list of blocks, numbered on from `first`. */
  function Packets(blocks: seq<seq<bv8>>, first: bv8): (packets: seq<seq<bv8>>)
    ensures |packets| == |blocks|
  {
    if blocks == [] then [] else [Packet(first, blocks[0])] + Packets(blocks[1..], first + 1)
  }

  lemma {:induction false} PacketAt(blocks: seq<seq<bv8>>, from: nat, i: nat)
    requires i < |blocks|
    ensures Packets(blocks, BlockNumber(from))[i] == Packet(BlockNumber(from + i), blocks[i])
    decreases i
  {
    hide Packet;
    if i > 0 {
      PacketAt(blocks[1..], from + 1, i - 1);
    }
  }

  /** Every packet's block followed by its two CRC bytes leaves a zero register. */
  lemma PacketResidue(number: bv8, data: seq<bv8>)
    ensures Crc(Packet(number, data)[3..]) == 0
  {
    hide Crc, High, LowByte, Word;
    WordOfBytes(Crc(data));
    ResidueExact(data, High(Crc(data)), LowByte(Crc(data)));
    assert Packet(number, data)[3..] == data + [High(Crc(data)), LowByte(Crc(data))];
  }

  lemma TailBlocks(payload: seq<bv8>, i: nat, blocks: seq<seq<bv8>>, at: nat)
    requires at == i * BLOCK_SIZE && at + BLOCK_SIZE < |payload|
    requires blocks == Blocks(payload[at..])
    ensures blocks[0] == payload[at..at + BLOCK_SIZE] && blocks[1..] == Blocks(payload[at + BLOCK_SIZE..])
  {
    assert payload[at..][..BLOCK_SIZE] == payload[at..at + BLOCK_SIZE];
    assert payload[at..][BLOCK_SIZE..] == payload[at + BLOCK_SIZE..];
  }

  /** How many blocks there are, as `encode_packets` counts them. */
  lemma {:induction false} BlockCount(payload: seq<bv8>)
    ensures |Blocks(payload)| == Max(1, (|payload| + BLOCK_SIZE - 1) / BLOCK_SIZE)
  {
    if |payload| > BLOCK_SIZE {
      BlockCount(payload[BLOCK_SIZE..]);
    }
  }

  lemma LastBlock(payload: seq<bv8>, at: nat)
    requires at <= |payload| <= at + BLOCK_SIZE
    ensures Blocks(payload[at..]) == [payload[at..] + Fill(at + BLOCK_SIZE - |payload|)]
  {
  }

  /** The body of the loop in `encode_packets`: cut, fill up, frame. */
  method EncodeBlock(payload: seq<bv8>, at: nat, block: bv8) returns (packet: seq<bv8>)
    requires at <= |payload|
    ensures packet == Packet(block, Blocks(payload[at..])[0])
  {
    hide Crc;
    var data := payload[at..Min(at + BLOCK_SIZE, |payload|)];
    ghost var cut := payload[at..];
    if |data| == BLOCK_SIZE {
      assert cut[..BLOCK_SIZE] == data;
      assert |cut| == BLOCK_SIZE ==> cut + Fill(0) == data;
    }
    data := data + Fill(BLOCK_SIZE - |data|);
    assert Blocks(cut)[0] == data;
    var crc := Crc16Xmodem(data);
    packet := [STX, block, 0xff - block] + data + [High(crc), LowByte(crc)];
  }

  /** `encode_packets`. */
  method EncodePackets(payload: seq<bv8>) returns (packets: seq<seq<bv8>>)
    ensures packets == Packets(Blocks(payload), BlockNumber(0))
  {
    hide Packet, Packets, BlockNumber;
    var total := Max(1, (|payload| + BLOCK_SIZE - 1) / BLOCK_SIZE);
    BlockCount(payload);
    packets := [];
    var i, at := 0, 0;
    assert payload[0..] == payload;
    ghost var rest := Blocks(payload);
    while i < total
      invariant 0 <= i <= total && at == i * BLOCK_SIZE && |rest| == total - i
      invariant i < total ==> at <= |payload| && rest == Blocks(payload[at..])
      invariant packets + Packets(rest, BlockNumber(i)) == Packets(Blocks(payload), BlockNumber(0))
    {
      var packet := EncodeBlock(payload, at, BlockNumber(i));
      PacketsFirst(rest, i);
      packets := packets + [packet];
      if at + BLOCK_SIZE < |payload| {
        TailBlocks(payload, i, rest, at);
      } else {
        LastBlock(payload, at);
      }
      rest := rest[1..];
      i, at := i + 1, at + BLOCK_SIZE;
    }
    NoPackets(BlockNumber(i));
  }

  lemma PacketsFirst(blocks: seq<seq<bv8>>, i: nat)
    requires blocks != []
    ensures Packets(blocks, BlockNumber(i)) == [Packet(BlockNumber(i), blocks[0])] + Packets(blocks[1..], BlockNumber(i + 1))
  {
    hide Packet;
  }

  lemma NoPackets(first: bv8)
    ensures Packets([], first) == []
  {
  }

  // ---------------------------------------------------------------------------------------------
  // What the blocks carry
  // ---------------------------------------------------------------------------------------------

  function Flat(blocks: seq<seq<bv8>>): seq<bv8> {
    if blocks == [] then [] else blocks[0] + Flat(blocks[1..])
  }

  /** How much filling the last block carries. */
  function FillCount(n: nat): (k: nat)
    ensures k <= BLOCK_SIZE && (k == BLOCK_SIZE <==> n == 0)
  {
    if n <= BLOCK_SIZE then BLOCK_SIZE - n else FillCount(n - BLOCK_SIZE)
  }

  function Padded(payload: seq<bv8>): seq<bv8> {
    payload + Fill(FillCount(|payload|))
  }

  /** The blocks in order are the payload and then filling, less than a block of it unless the payload is empty. */
  lemma {:induction false} BlocksCarryPayload(payload: seq<bv8>)
    ensures Flat(Blocks(payload)) == Padded(payload)
  {
    if |payload| <= BLOCK_SIZE {
      var only := payload + Fill(BLOCK_SIZE - |payload|);
      assert Blocks(payload)[1..] == [];
      assert Flat(Blocks(payload)) == only + [];
    } else {
      BlocksCarryPayload(payload[BLOCK_SIZE..]);
      assert payload == payload[..BLOCK_SIZE] + payload[BLOCK_SIZE..];
      assert Blocks(payload)[1..] == Blocks(payload[BLOCK_SIZE..]);
    }
  }

  /** What is left of a received image when the filling is taken off its end. */
  function Strip(s: seq<bv8>): seq<bv8>
    decreases |s|
  {
    if s != [] && s[|s| - 1] == FILL then Strip(s[..|s| - 1]) else s
  }

  lemma {:induction false} StripFill(s: seq<bv8>, n: nat)
    ensures Strip(s + Fill(n)) == Strip(s)
    decreases n
  {
    if n == 0 {
      assert s + Fill(0) == s;
    } else {
      assert s + Fill(n) == s + Fill(n - 1) + [FILL];
      assert (s + Fill(n))[..|s| + n - 1] == s + Fill(n - 1);
      StripFill(s, n - 1);
    }
  }

  lemma {:induction false} StripShortens(s: seq<bv8>)
    ensures |Strip(s)| <= |s|
    decreases |s|
  {
    if s != [] && s[|s| - 1] == FILL { StripShortens(s[..|s| - 1]); }
  }

  /** The framing alone does not say how long the payload was: taking the filling off gives it back exactly when it
      does not itself end in a filling byte. */
  lemma PayloadRecovered(payload: seq<bv8>)
    ensures Strip(Flat(Blocks(payload))) == payload <==> payload == [] || payload[|payload| - 1] != FILL
  {
    BlocksCarryPayload(payload);
    StripFill(payload, FillCount(|payload|));
    if payload != [] {
      StripShortens(payload[..|payload| - 1]);
    }
  }
}
