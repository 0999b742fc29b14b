/**
 The sender's retry loop against the bootloader over a link that may lose, damage, cut up and repeat what is sent
 either way. A link is described by what the bootloader makes of the line during each attempt and by the byte the
 sender then reads. What the sender takes for success is success over every link that never passes off damage as the
 block being sent or as an acknowledgement; beside that stands exactly when an acknowledgement can be trusted.
 */
module SerialLink {
  import opened Prelude
  import opened Crc16
  import opened Xmodem
  import opened Bootloader
  import opened Transfer

  const ATTEMPTS := 3

  /** `sees(i, a, packet)` is what arrives during attempt `a` at block `i`, when `packet` is sent; `hears(i, a, replies)`
      is the byte the sender reads in that attempt, if any, when the device has sent `replies` since the first attempt at
      the block. `endSees` and `endHears` are the same for the end mark. */
  datatype Link = Link(
    sees: (nat, nat, seq<bv8>) -> seq<Arrival>,
    hears: (nat, nat, seq<bv8>) -> Option<bv8>,
    endSees: seq<Arrival>,
    endHears: seq<bv8> -> Option<bv8>)

  /** Where a transfer stands: the device, and whether the sender got its acknowledgement. */
  datatype Report = Report(device: Device, acked: bool)

  /** Attempt `a` at block `i` and those after it, the device having sent `sent` at this block so far. */
  function TryBlock(d: Device, i: nat, packet: seq<bv8>, a: nat, sent: seq<bv8>, link: Link, works: nat -> bool): Report
    requires a <= ATTEMPTS
    decreases ATTEMPTS - a
  {
    if a == ATTEMPTS then Report(d, false)
    else
      var turn := Obey(d, link.sees(i, a, packet), works);
      var replies := sent + turn.replies;
      match link.hears(i, a, replies)
      case None => TryBlock(turn.device, i, packet, a + 1, replies, link, works)
      case Some(reply) =>
        if reply == ACK then Report(turn.device, true)
        else if reply == NAK then TryBlock(turn.device, i, packet, a + 1, replies, link, works)
        else Report(turn.device, false)
  }

  /** What becomes of a block is settled by the first three attempts at it. */
  lemma {:induction false} ThreeAttemptsDecide(d: Device, i: nat, packet: seq<bv8>, a: nat, sent: seq<bv8>, one: Link,
                                               other: Link, works: nat -> bool)
    requires a <= 3 && forall b :: 0 <= b < 3 ==> one.sees(i, b, packet) == other.sees(i, b, packet)
    requires forall b, replies :: 0 <= b < 3 ==> one.hears(i, b, replies) == other.hears(i, b, replies)
    ensures TryBlock(d, i, packet, a, sent, one, works) == TryBlock(d, i, packet, a, sent, other, works)
    decreases 3 - a
  {
    hide Obey;
    if a < 3 {
      var turn := Obey(d, one.sees(i, a, packet), works);
      ThreeAttemptsDecide(turn.device, i, packet, a + 1, sent + turn.replies, one, other, works);
    }
  }

  function SendFrom(d: Device, i: nat, packets: seq<seq<bv8>>, link: Link, works: nat -> bool): Report
    requires i <= |packets|
    decreases |packets| - i
  {
    if i == |packets| then Report(d, true)
    else
      var report := TryBlock(d, i, packets[i], 0, [], link, works);
      if report.acked then SendFrom(report.device, i + 1, packets, link, works) else report
  }

  function SendEnd(d: Device, link: Link, works: nat -> bool): Report {
    var turn := Obey(d, link.endSees, works);
    Report(turn.device, link.endHears(turn.replies) == Some(ACK))
  }

  function Send(packets: seq<seq<bv8>>, link: Link, works: nat -> bool): Report {
    var report := SendFrom(FRESH, 0, packets, link, works);
    if report.acked then SendEnd(report.device, link, works) else report
  }

  /** Up to three attempts at one block. */
  method OfferBlock(d: Device, i: nat, packet: seq<bv8>, link: Link, works: nat -> bool) returns (report: Report)
    ensures report == TryBlock(d, i, packet, 0, [], link, works)
  {
    hide Obey;
    var e, a, sent := d, 0, [];
    while a < ATTEMPTS
      invariant 0 <= a <= ATTEMPTS
      invariant TryBlock(e, i, packet, a, sent, link, works) == TryBlock(d, i, packet, 0, [], link, works)
    {
      var turn := Obey(e, link.sees(i, a, packet), works);
      sent := sent + turn.replies;
      var ack := link.hears(i, a, sent);
      if ack == Some(ACK) {
        return Report(turn.device, true);
      }
      if ack != Some(NAK) && ack != None {
        return Report(turn.device, false);
      }
      e, a := turn.device, a + 1;
    }
    report := Report(e, false);
  }

  /** The loop over the packets, then the end mark. */
  method SendPackets(packets: seq<seq<bv8>>, link: Link, works: nat -> bool) returns (report: Report)
    ensures report == Send(packets, link, works)
  {
    hide Obey, TryBlock;
    report := Report(FRESH, true);
    var i := 0;
    while i < |packets|
      invariant 0 <= i <= |packets| && report.acked
      invariant SendFrom(report.device, i, packets, link, works) == SendFrom(FRESH, 0, packets, link, works)
    {
      report := OfferBlock(report.device, i, packets[i], link, works);
      if !report.acked {
        return;
      }
      i := i + 1;
    }
    var turn := Obey(report.device, link.endSees, works);
    report := Report(turn.device, link.endHears(turn.replies) == Some(ACK));
  }

  /** The packets of a payload, as `encode_packets` makes them. */
  function Encoded(payload: seq<bv8>): (packets: seq<seq<bv8>>)
    ensures |packets| == |Blocks(payload)|
  {
    Packets(Blocks(payload), BlockNumber(0))
  }

  /** The packets carry these blocks. */
  ghost predicate Carries(packets: seq<seq<bv8>>, blocks: seq<seq<bv8>>) {
    |packets| == |blocks| && forall i :: 0 <= i < |blocks| ==> packets[i] == Packet(BlockNumber(i), blocks[i])
  }

  lemma EncodedCarries(payload: seq<bv8>)
    ensures Carries(Encoded(payload), Blocks(payload))
  {
    hide Packet, Packets, BlockNumber;
    var blocks := Blocks(payload);
    forall i | 0 <= i < |blocks| ensures Encoded(payload)[i] == Packet(BlockNumber(i), blocks[i]) {
      PacketAt(blocks, 0, i);
    }
  }

  // ---------------------------------------------------------------------------------------------
  // Links that do not forge
  // ---------------------------------------------------------------------------------------------

  /** Whatever arrives, it is not the end mark, and a frame that passes the check is the one that was sent. */
  predicate Honest(arrivals: seq<Arrival>, number: bv8, data: seq<bv8>) {
    forall x :: x in arrivals ==> x != End && (x.Frame? && Passes(x) ==> x == FrameOf(number, data))
  }

  /** While the end mark is sent, no frame that arrives passes the check. */
  predicate HonestEnd(arrivals: seq<Arrival>) {
    forall x :: x in arrivals ==> !(x.Frame? && Passes(x))
  }

  /** That much of every attempt at every block. Of what the sender reads it says nothing. */
  ghost predicate HonestFrames(link: Link, blocks: seq<seq<bv8>>) {
    forall i, a :: 0 <= i < |blocks| && 0 <= a < ATTEMPTS ==>
      Honest(link.sees(i, a, Packet(BlockNumber(i), blocks[i])), BlockNumber(i), blocks[i])
  }

  /** Damage is never passed off as the block being sent, and nothing as an acknowledgement of a block that was not
      acknowledged. An acknowledgement of an earlier attempt at the same block may be read late. */
  ghost predicate Faithful(link: Link, blocks: seq<seq<bv8>>) {
    && HonestFrames(link, blocks)
    && (forall i: nat, a: nat, replies :: link.hears(i, a, replies) == Some(ACK) ==> ACK in replies)
    && HonestEnd(link.endSees)
    && (forall replies :: link.endHears(replies) == Some(ACK) ==> ACK in replies)
  }

  // ---------------------------------------------------------------------------------------------
  // What an attempt can do
  // ---------------------------------------------------------------------------------------------

  /** The device while block `k` is on its way: it has taken the blocks before it, and perhaps that one too; or it has
      given up. `before` is the content without the block and `after` the content with it. */
  ghost predicate Offered(d: Device, before: seq<bv8>, after: seq<bv8>, k: nat, works: nat -> bool) {
    d.status == Failed || Ready(d, before, k, works) || Ready(d, after, k + 1, works)
  }

  lemma ReplyBytes()
    ensures ACK != NAK && ACK != CAN && ACK != CRC_NAK
  {
  }

  lemma OtherArrivals(d: Device, x: Arrival, works: nat -> bool)
    requires d.status == Serving && x != End && !(x.Frame? && Passes(x))
    ensures var turn := Step(d, x, works);
            ACK !in turn.replies && (turn.device == d || (x == Cancel && turn.device.status == Failed))
  {
    ReplyBytes();
  }

  lemma OfferedStep(d: Device, before: seq<bv8>, data: seq<bv8>, k: nat, x: Arrival, works: nat -> bool)
    requires Offered(d, before, before + data, k, works) && data != []
    requires Honest([x], BlockNumber(k), data)
    ensures var turn := Step(d, x, works);
            && Offered(turn.device, before, before + data, k, works)
            && (ACK in turn.replies ==> Ready(turn.device, before + data, k + 1, works))
            && (Ready(d, before + data, k + 1, works) ==>
                  turn.device.status == Failed || Ready(turn.device, before + data, k + 1, works))
            && (d.status == Serving && x != Cancel && Writable(Flushed(|before + data|), works) ==>
                  turn.device.status == Serving)
  {
    assert x in [x] && |before + data| == |before| + |data|;
    if d.status == Serving {
      if x.Frame? && Passes(x) {
        ReplyBytes();
        ReadyServes(d, before, data, k, works);
        hide Step, Ready, FrameOf, Passes, Flushed, Writable;
        if Ready(d, before + data, k + 1, works) {
          RepeatedFrame(d, before + data, k, data, works);
        } else {
          DueFrame(d, before, k, data, works);
          ReadyServes(Step(d, x, works).device, before, data, k, works);
        }
      } else {
        OtherArrivals(d, x, works);
        hide Step, Ready, Passes;
      }
    }
  }

  lemma ReadyServes(d: Device, before: seq<bv8>, data: seq<bv8>, k: nat, works: nat -> bool)
    ensures Ready(d, before + data, k + 1, works) ==> d.status == Serving
  {
  }

  /** Any number of arrivals during an attempt. */
  lemma {:induction false} OfferedMany(d: Device, before: seq<bv8>, data: seq<bv8>, k: nat, arrivals: seq<Arrival>,
                                       works: nat -> bool)
    requires Offered(d, before, before + data, k, works) && data != []
    requires Honest(arrivals, BlockNumber(k), data)
    ensures var turn := Obey(d, arrivals, works);
            && Offered(turn.device, before, before + data, k, works)
            && (ACK in turn.replies || Ready(d, before + data, k + 1, works) ==>
                  turn.device.status == Failed || Ready(turn.device, before + data, k + 1, works))
            && (d.status == Serving && Cancel !in arrivals && Writable(Flushed(|before + data|), works) ==>
                  turn.device.status == Serving)
    decreases |arrivals|
  {
    hide Step, Ready, Passes, FrameOf, Flushed, Writable;
    if arrivals != [] {
      var turn := Step(d, arrivals[0], works);
      HonestParts(arrivals, BlockNumber(k), data);
      OfferedStep(d, before, data, k, arrivals[0], works);
      OfferedMany(turn.device, before, data, k, arrivals[1..], works);
      FailedStays(turn.device, arrivals[1..], works);
    }
  }

  lemma FailedStays(d: Device, arrivals: seq<Arrival>, works: nat -> bool)
    ensures d.status != Serving ==> Obey(d, arrivals, works) == Turn(d, [])
  {
    if d.status != Serving { ObeyStopped(d, arrivals, works); }
  }

  lemma HonestParts(arrivals: seq<Arrival>, number: bv8, data: seq<bv8>)
    requires arrivals != [] && Honest(arrivals, number, data)
    ensures Honest([arrivals[0]], number, data) && Honest(arrivals[1..], number, data)
  {
    hide Passes, FrameOf;
    assert arrivals[0] in arrivals;
    assert forall x :: x in arrivals[1..] ==> x in arrivals;
  }

  // ---------------------------------------------------------------------------------------------
  // Safety
  // ---------------------------------------------------------------------------------------------

  lemma {:induction false} TryBlockSafe(d: Device, before: seq<bv8>, blocks: seq<seq<bv8>>, k: nat, a: nat,
                                        sent: seq<bv8>, link: Link, works: nat -> bool)
    requires Faithful(link, blocks) && k < |blocks| && a <= ATTEMPTS && blocks[k] != []
    requires Offered(d, before, before + blocks[k], k, works)
    requires ACK in sent ==> d.status == Failed || Ready(d, before + blocks[k], k + 1, works)
    ensures var report := TryBlock(d, k, Packet(BlockNumber(k), blocks[k]), a, sent, link, works);
            report.acked ==> report.device.status == Failed || Ready(report.device, before + blocks[k], k + 1, works)
    decreases ATTEMPTS - a
  {
    hide Obey, Ready, Honest, HonestEnd, Packet;
    if a < ATTEMPTS {
      var arrivals := link.sees(k, a, Packet(BlockNumber(k), blocks[k]));
      var turn := Obey(d, arrivals, works);
      assert Honest(arrivals, BlockNumber(k), blocks[k]);
      OfferedMany(d, before, blocks[k], k, arrivals, works);
      FailedStays(d, arrivals, works);
      TryBlockSafe(turn.device, before, blocks, k, a + 1, sent + turn.replies, link, works);
    }
  }

  lemma {:induction false} SendFromSafe(d: Device, content: seq<bv8>, packets: seq<seq<bv8>>, blocks: seq<seq<bv8>>,
                                        k: nat, link: Link, works: nat -> bool)
    requires Faithful(link, blocks) && Carries(packets, blocks) && k <= |blocks| && AllBlocks(blocks)
    requires d.status == Failed || Ready(d, content, k, works)
    ensures var report := SendFrom(d, k, packets, link, works);
            report.acked ==> report.device.status == Failed
                             || Ready(report.device, content + Flat(blocks[k..]), |blocks|, works)
    decreases |blocks| - k
  {
    hide TryBlock, Ready, Faithful, Packet;
    if k == |blocks| {
      assert content + Flat(blocks[k..]) == content;
    } else {
      var report := TryBlock(d, k, packets[k], 0, [], link, works);
      TryBlockSafe(d, content, blocks, k, 0, [], link, works);
      Regrouped(content, blocks[k..]);
      assert blocks[k..][1..] == blocks[k + 1..];
      if report.acked {
        SendFromSafe(report.device, content + blocks[k], packets, blocks, k + 1, link, works);
      }
    }
  }

  lemma {:induction false} EndSafe(d: Device, content: seq<bv8>, k: nat, arrivals: seq<Arrival>, works: nat -> bool)
    requires HonestEnd(arrivals) && k > 0 && (d.status == Failed || Ready(d, content, k, works))
    ensures var turn := Obey(d, arrivals, works);
            ACK in turn.replies ==> turn.device.status == Programmed && turn.device.flash == Image(content)
    decreases |arrivals|
  {
    hide Step, Passes, Image, Flushed, Writable, Holds;
    if arrivals != [] {
      var turn := Step(d, arrivals[0], works);
      assert HonestEnd(arrivals[1..]) && arrivals[0] in arrivals;
      FailedStays(d, arrivals, works);
      FailedStays(turn.device, arrivals[1..], works);
      ReplyBytes();
      if d.status == Serving {
        if arrivals[0] == End {
          EndArrives(d, content, k, works);
        } else {
          OtherArrivals(d, arrivals[0], works);
          EndSafe(turn.device, content, k, arrivals[1..], works);
        }
      }
    }
  }

  /** When the sender has had its end mark acknowledged, over any faithful link and however often it had to repeat
      itself, the flash holds the payload, its filling, and nothing else. */
  lemma AcknowledgedIsProgrammed(payload: seq<bv8>, link: Link, works: nat -> bool)
    requires Faithful(link, Blocks(payload))
    ensures var report := Send(Encoded(payload), link, works);
            report.acked ==> report.device.status == Programmed && report.device.flash == Image(Padded(payload))
  {
    EncodedCarries(payload);
    hide Obey, Image, Ready, Padded, SendFrom, Encoded, Faithful, Carries;
    var blocks := Blocks(payload);
    FreshIsReady(works);
    SendFromSafe(FRESH, [], Encoded(payload), blocks, 0, link, works);
    assert blocks[0..] == blocks && [] + Flat(blocks) == Flat(blocks);
    BlocksCarryPayload(payload);
    var report := SendFrom(FRESH, 0, Encoded(payload), link, works);
    if report.acked {
      FaithfulEnd(link, blocks, Obey(report.device, link.endSees, works).replies);
      EndSafe(report.device, Padded(payload), |blocks|, link.endSees, works);
    }
  }

  lemma FaithfulEnd(link: Link, blocks: seq<seq<bv8>>, replies: seq<bv8>)
    requires Faithful(link, blocks)
    ensures HonestEnd(link.endSees) && (link.endHears(replies) == Some(ACK) ==> ACK in replies)
  {
    hide Honest, HonestEnd;
  }

  // ---------------------------------------------------------------------------------------------
  // Exactly when an acknowledgement can be trusted
  // ---------------------------------------------------------------------------------------------

  /** Arrivals that a device holding `n` bytes acknowledges without having stored `data`, the block that is due: a sound
      frame under the number before, one under the due number with other data and flash to take it, or the end mark. */
  predicate Misleading(d: Device, x: Arrival, n: nat, data: seq<bv8>, works: nat -> bool) {
    match x
    case Frame(number, _, other, _, _) =>
      Passes(x) && (number == Preceding(d.expected)
                    || (number == d.expected && other != data && Writable(Flushed(n + |other|), works)))
    case End => d.gotAny && Writable(Flushed(n) + PAGE_SIZE, works)
    case Quiet => false
    case Cancel => false
  }

  /** While a block is due, an acknowledgement means that the block is stored if and only if the arrival is not one of
      those. */
  lemma AcknowledgementExact(d: Device, content: seq<bv8>, k: nat, data: seq<bv8>, x: Arrival, works: nat -> bool)
    requires Ready(d, content, k, works) && data != []
    ensures var turn := Step(d, x, works);
            (ACK in turn.replies ==> Ready(turn.device, content + data, k + 1, works)) <==>
            !Misleading(d, x, |content|, data, works)
  {
    ReplyBytes();
    ReadyMeans(d, content, k, works);
    NotYetReady(d, content, k, data, works);
    if x.Frame? && Passes(x) {
      hide Passes;
      if x.number == Preceding(d.expected) || x.number != d.expected {
        hide Ready;
      } else {
        hide Step, Ready, Flushed, Writable;
        DueNumber(d, content, k, x, works);
        var e := Step(d, x, works).device;
        OtherContent(e, content, x.data, data, k + 1, works);
        if x.data == data && Writable(Flushed(|content| + |data|), works) { DueContent(e, content, data, k, works); }
      }
    } else if x == End {
      hide Step, Ready, Flushed, Writable;
      EndWhileDue(d, content, k, works);
      StoppedIsNotReady(Step(d, x, works).device, content + data, k + 1, works);
    } else {
      OtherArrivals(d, x, works);
      hide Step, Ready, Passes;
    }
  }

  /** Once the block is stored, an acknowledgement means that nothing more is, unless a sound frame under the next number
      or the end mark gets in. */
  lemma StillExact(d: Device, content: seq<bv8>, k: nat, x: Arrival, works: nat -> bool)
    requires Ready(d, content, k, works)
    ensures var turn := Step(d, x, works);
            (ACK in turn.replies ==> turn.device == d) <==>
            !(match x {
                case Frame(number, _, data, _, _) =>
                  Passes(x) && number == d.expected && Writable(Flushed(|content| + |data|), works)
                case End => d.gotAny && Writable(Flushed(|content|) + PAGE_SIZE, works)
                case Quiet => false
                case Cancel => false
              })
  {
    ReplyBytes();
    ReadyMeans(d, content, k, works);
    if x.Frame? && Passes(x) {
      NumberBefore(d.expected);
      hide Passes;
      if x.number == d.expected {
        hide Step, Ready, Flushed, Writable;
        DueNumber(d, content, k, x, works);
        FollowingDiffers(d.expected);
      } else {
        hide Ready;
      }
    } else if x == End {
      hide Step, Ready, Flushed, Writable;
      EndWhileDue(d, content, k, works);
    } else {
      OtherArrivals(d, x, works);
      hide Step, Ready, Passes;
    }
  }

  lemma FollowingDiffers(number: bv8)
    ensures Following(number) != number
  {
  }

  lemma ReadyMeans(d: Device, content: seq<bv8>, k: nat, works: nat -> bool)
    requires Ready(d, content, k, works)
    ensures d.status == Serving && d.expected == BlockNumber(k) && (d.gotAny <==> k > 0)
  {
  }

  lemma NotYetReady(d: Device, content: seq<bv8>, k: nat, data: seq<bv8>, works: nat -> bool)
    requires Ready(d, content, k, works) && data != []
    ensures !Ready(d, content + data, k + 1, works)
  {
    hide Writable, Flushed, BlockNumber;
    assert |content + data| > |content|;
  }

  lemma StoppedIsNotReady(d: Device, content: seq<bv8>, k: nat, works: nat -> bool)
    ensures d.status != Serving ==> !Ready(d, content, k, works)
  {
  }

  /** A sound frame under the due number, whatever its data. */
  lemma DueNumber(d: Device, content: seq<bv8>, k: nat, x: Arrival, works: nat -> bool)
    requires Ready(d, content, k, works) && x.Frame? && Passes(x) && x.number == d.expected
    ensures var turn := Step(d, x, works);
            if Writable(Flushed(|content| + |x.data|), works)
            then turn.replies == [ACK] && Holds(turn.device, content + x.data)
                 && turn.device.expected == Following(d.expected) && turn.device.status == Serving && turn.device.gotAny
            else turn.replies == [CAN]
  {
    NumberBefore(d.expected);
    hide Store, Passes, Flushed, Writable, Preceding, Following, BlockNumber;
    StoreExact(d, content, x.data, works);
  }

  lemma OtherContent(d: Device, content: seq<bv8>, stored: seq<bv8>, data: seq<bv8>, k: nat, works: nat -> bool)
    ensures Holds(d, content + stored) && stored != data ==> !Ready(d, content + data, k, works)
  {
    SameEnd(content, stored, data);
    hide Writable, Flushed, BlockNumber;
  }

  lemma DueContent(d: Device, content: seq<bv8>, data: seq<bv8>, k: nat, works: nat -> bool)
    requires Holds(d, content + data) && Writable(Flushed(|content| + |data|), works) && data != []
    requires d.status == Serving && d.gotAny && d.expected == Following(BlockNumber(k))
    ensures Ready(d, content + data, k + 1, works)
  {
    NextNumber(k);
    hide Writable, Flushed, BlockNumber, Following, Holds;
    assert |content + data| == |content| + |data|;
  }

  lemma SameEnd(content: seq<bv8>, a: seq<bv8>, b: seq<bv8>)
    ensures content + a == content + b <==> a == b
  {
    var x, y := content + a, content + b;
    assert x[|content|..] == a && y[|content|..] == b;
  }

  lemma EndWhileDue(d: Device, content: seq<bv8>, k: nat, works: nat -> bool)
    requires Ready(d, content, k, works)
    ensures var turn := Step(d, End, works);
            if d.gotAny && Writable(Flushed(|content|) + PAGE_SIZE, works)
            then turn.replies == [ACK] && turn.device.status == Programmed
            else ACK !in turn.replies
  {
    ReplyBytes();
    hide Flushed, Writable, Flush, Holds;
    if d.gotAny { EndArrives(d, content, k, works); }
  }

  /** The sender's reading that ends the attempts at a block is an acknowledgement, and the device did send one at this
      block. */
  predicate Backed(d: Device, i: nat, packet: seq<bv8>, a: nat, sent: seq<bv8>, link: Link, works: nat -> bool)
    requires a <= ATTEMPTS
    decreases ATTEMPTS - a
  {
    a < ATTEMPTS &&
    var turn := Obey(d, link.sees(i, a, packet), works);
    var replies := sent + turn.replies;
    match link.hears(i, a, replies)
    case None => Backed(turn.device, i, packet, a + 1, replies, link, works)
    case Some(reply) =>
      if reply == NAK then Backed(turn.device, i, packet, a + 1, replies, link, works)
      else reply == ACK && ACK in replies
  }

  /** So it is at every block from `i` on. */
  predicate AllBacked(d: Device, i: nat, packets: seq<seq<bv8>>, link: Link, works: nat -> bool)
    requires i <= |packets|
    decreases |packets| - i
  {
    i == |packets| ||
    (Backed(d, i, packets[i], 0, [], link, works)
     && AllBacked(TryBlock(d, i, packets[i], 0, [], link, works).device, i + 1, packets, link, works))
  }

  /** The device during the attempts at a block, with what it has sent at this block: it has given up, or it has
      acknowledged the block exactly if it holds it. */
  ghost predicate Tracked(d: Device, before: seq<bv8>, after: seq<bv8>, k: nat, sent: seq<bv8>, works: nat -> bool) {
    d.status == Failed || (if ACK in sent then Ready(d, after, k + 1, works) else Ready(d, before, k, works))
  }

  lemma TrackedStep(d: Device, before: seq<bv8>, data: seq<bv8>, k: nat, sent: seq<bv8>, x: Arrival, works: nat -> bool)
    requires Tracked(d, before, before + data, k, sent, works) && data != [] && Honest([x], BlockNumber(k), data)
    ensures var turn := Step(d, x, works);
            Tracked(turn.device, before, before + data, k, sent + turn.replies, works)
  {
    assert x in [x];
    ReplyBytes();
    if d.status != Failed {
      if ACK in sent { ReadyMeans(d, before + data, k + 1, works); } else { ReadyMeans(d, before, k, works); }
      if x.Frame? && Passes(x) {
        hide Step, Ready, FrameOf, Passes, Flushed, Writable;
        if ACK in sent {
          RepeatedFrame(d, before + data, k, data, works);
        } else {
          DueFrame(d, before, k, data, works);
        }
      } else {
        OtherArrivals(d, x, works);
        hide Step, Ready, Passes;
      }
    } else {
      StoppedStep(d, x, works);
    }
  }

  lemma StoppedStep(d: Device, x: Arrival, works: nat -> bool)
    requires d.status != Serving
    ensures Step(d, x, works) == Turn(d, [])
  {
  }

  lemma {:induction false} TrackedMany(d: Device, before: seq<bv8>, data: seq<bv8>, k: nat, sent: seq<bv8>,
                                       arrivals: seq<Arrival>, works: nat -> bool)
    requires Tracked(d, before, before + data, k, sent, works) && data != []
    requires Honest(arrivals, BlockNumber(k), data)
    ensures var turn := Obey(d, arrivals, works);
            Tracked(turn.device, before, before + data, k, sent + turn.replies, works)
    decreases |arrivals|
  {
    hide Step, Tracked, Passes, FrameOf, Honest;
    if arrivals == [] {
      assert sent + [] == sent;
    } else {
      var turn := Step(d, arrivals[0], works);
      HonestParts(arrivals, BlockNumber(k), data);
      TrackedStep(d, before, data, k, sent, arrivals[0], works);
      TrackedMany(turn.device, before, data, k, sent + turn.replies, arrivals[1..], works);
      var rest := Obey(turn.device, arrivals[1..], works);
      assert sent + turn.replies + rest.replies == sent + (turn.replies + rest.replies);
    }
  }

  /** One block, over a link whose frames are honest: when the attempts end with an acknowledgement, the device has
      given up, or it holds the block if the acknowledgement is backed, or it still waits for the block. */
  lemma {:induction false} TryBlockExact(d: Device, before: seq<bv8>, blocks: seq<seq<bv8>>, k: nat, a: nat,
                                         sent: seq<bv8>, link: Link, works: nat -> bool)
    requires HonestFrames(link, blocks) && k < |blocks| && a <= ATTEMPTS && blocks[k] != []
    requires Tracked(d, before, before + blocks[k], k, sent, works)
    ensures var packet := Packet(BlockNumber(k), blocks[k]);
            var report := TryBlock(d, k, packet, a, sent, link, works);
            report.acked ==>
              || report.device.status == Failed
              || (if Backed(d, k, packet, a, sent, link, works) then Ready(report.device, before + blocks[k], k + 1, works)
                  else Ready(report.device, before, k, works))
    decreases ATTEMPTS - a
  {
    hide Obey, Ready, Honest, Packet;
    if a < ATTEMPTS {
      var arrivals := link.sees(k, a, Packet(BlockNumber(k), blocks[k]));
      var turn := Obey(d, arrivals, works);
      assert Honest(arrivals, BlockNumber(k), blocks[k]);
      ReplyBytes();
      TrackedMany(d, before, blocks[k], k, sent, arrivals, works);
      TryBlockExact(turn.device, before, blocks, k, a + 1, sent + turn.replies, link, works);
    }
  }

  // A device that misses a block never catches up.

  /** It has given up, or it holds at most `n` bytes. */
  ghost predicate AtMost(d: Device, n: int, works: nat -> bool) {
    || d.status == Failed
    || (d.status == Serving && |d.flash + d.page| <= n
        && Holds(d, d.flash + d.page) && Writable(Flushed(|d.flash + d.page|), works))
  }

  /** While block `j` is on its way, the device lacks a block's worth of bytes, or has just taken this one. */
  ghost predicate Lagging(d: Device, j: nat, works: nat -> bool) {
    || AtMost(d, (j - 1) * BLOCK_SIZE, works)
    || (AtMost(d, j * BLOCK_SIZE, works) && d.expected == Following(BlockNumber(j)))
  }

  lemma LaggingStep(d: Device, j: nat, data: seq<bv8>, x: Arrival, works: nat -> bool)
    requires Lagging(d, j, works) && |data| == BLOCK_SIZE && Honest([x], BlockNumber(j), data)
    ensures Lagging(Step(d, x, works).device, j, works)
  {
    assert x in [x];
    if d.status == Serving {
      if x.Frame? && Passes(x) {
        FrameNumber(BlockNumber(j), data);
        LaggingFrame(d, j, x, works);
      } else {
        OtherArrivals(d, x, works);
        hide Step, Passes, Flushed, Writable;
      }
    } else {
      StoppedStep(d, x, works);
    }
  }

  lemma FrameNumber(number: bv8, data: seq<bv8>)
    ensures FrameOf(number, data).number == number && FrameOf(number, data).data == data
  {
  }

  lemma LaggingFrame(d: Device, j: nat, x: Arrival, works: nat -> bool)
    requires d.status == Serving && Lagging(d, j, works) && x.Frame? && Passes(x)
    requires x.number == BlockNumber(j) && |x.data| == BLOCK_SIZE
    ensures Lagging(Step(d, x, works).device, j, works)
  {
    FollowingDiffers(BlockNumber(j));
    hide Passes, Store, Flushed, Writable, Preceding, Following, BlockNumber;
    if x.number == d.expected && x.number != Preceding(d.expected) {
      var held := d.flash + d.page;
      StoreExact(d, held, x.data, works);
      assert |held + x.data| == |held| + |x.data|;
    }
  }

  lemma {:induction false} LaggingMany(d: Device, j: nat, data: seq<bv8>, arrivals: seq<Arrival>, works: nat -> bool)
    requires Lagging(d, j, works) && |data| == BLOCK_SIZE && Honest(arrivals, BlockNumber(j), data)
    ensures Lagging(Obey(d, arrivals, works).device, j, works)
    decreases |arrivals|
  {
    hide Step, Lagging, Honest;
    if arrivals != [] {
      HonestParts(arrivals, BlockNumber(j), data);
      LaggingStep(d, j, data, arrivals[0], works);
      LaggingMany(Step(d, arrivals[0], works).device, j, data, arrivals[1..], works);
    }
  }

  lemma {:induction false} LaggingBlock(d: Device, blocks: seq<seq<bv8>>, j: nat, a: nat, sent: seq<bv8>, link: Link,
                                        works: nat -> bool)
    requires HonestFrames(link, blocks) && j < |blocks| && a <= ATTEMPTS && |blocks[j]| == BLOCK_SIZE
    requires Lagging(d, j, works)
    ensures Lagging(TryBlock(d, j, Packet(BlockNumber(j), blocks[j]), a, sent, link, works).device, j, works)
    decreases ATTEMPTS - a
  {
    hide Obey, Lagging, Honest, Packet;
    if a < ATTEMPTS {
      var arrivals := link.sees(j, a, Packet(BlockNumber(j), blocks[j]));
      var turn := Obey(d, arrivals, works);
      assert Honest(arrivals, BlockNumber(j), blocks[j]);
      LaggingMany(d, j, blocks[j], arrivals, works);
      LaggingBlock(turn.device, blocks, j, a + 1, sent + turn.replies, link, works);
    }
  }

  lemma LaggingNext(d: Device, j: nat, works: nat -> bool)
    requires Lagging(d, j, works)
    ensures Lagging(d, j + 1, works)
  {
    hide Holds, Flushed, Writable;
  }

  lemma {:induction false} LaggingFrom(d: Device, packets: seq<seq<bv8>>, blocks: seq<seq<bv8>>, j: nat, link: Link,
                                       works: nat -> bool)
    requires HonestFrames(link, blocks) && Carries(packets, blocks) && j <= |blocks| && AllBlocks(blocks)
    requires Lagging(d, j, works)
    ensures var report := SendFrom(d, j, packets, link, works);
            report.acked ==> Lagging(report.device, |blocks|, works)
    decreases |blocks| - j
  {
    hide TryBlock, Lagging, HonestFrames, Packet;
    if j < |blocks| {
      var report := TryBlock(d, j, packets[j], 0, [], link, works);
      LaggingBlock(d, blocks, j, 0, [], link, works);
      LaggingNext(report.device, j, works);
      LaggingFrom(report.device, packets, blocks, j + 1, link, works);
    }
  }

  lemma LaggingIsNotReady(d: Device, n: nat, content: seq<bv8>, works: nat -> bool)
    requires Lagging(d, n, works) && |content| == n * BLOCK_SIZE
    ensures !Ready(d, content, n, works)
  {
    FollowingDiffers(BlockNumber(n));
    hide Writable, Flushed, BlockNumber, Following;
  }

  lemma ReadyIsAtMost(d: Device, content: seq<bv8>, k: nat, works: nat -> bool)
    requires Ready(d, content, k, works)
    ensures AtMost(d, |content|, works)
  {
    hide Writable, Flushed, BlockNumber;
  }

  lemma BehindLags(d: Device, content: seq<bv8>, k: nat, works: nat -> bool)
    requires Ready(d, content, k, works) && |content| == k * BLOCK_SIZE
    ensures Lagging(d, k + 1, works)
  {
    ReadyIsAtMost(d, content, k, works);
    hide AtMost, Ready, BlockNumber, Following;
  }

  lemma {:induction false} FailedFrom(d: Device, packets: seq<seq<bv8>>, i: nat, link: Link, works: nat -> bool)
    requires d.status == Failed && i <= |packets|
    ensures SendFrom(d, i, packets, link, works).device.status == Failed
    decreases |packets| - i
  {
    hide TryBlock;
    if i < |packets| {
      FailedBlock(d, i, packets[i], 0, [], link, works);
      FailedFrom(d, packets, i + 1, link, works);
    }
  }

  lemma {:induction false} FailedBlock(d: Device, i: nat, packet: seq<bv8>, a: nat, sent: seq<bv8>, link: Link,
                                       works: nat -> bool)
    requires d.status == Failed && a <= ATTEMPTS
    ensures TryBlock(d, i, packet, a, sent, link, works).device == d
    decreases ATTEMPTS - a
  {
    hide Obey;
    if a < ATTEMPTS {
      FailedStays(d, link.sees(i, a, packet), works);
      FailedBlock(d, i, packet, a + 1, sent + Obey(d, link.sees(i, a, packet), works).replies, link, works);
    }
  }

  lemma {:induction false} FlatSize(blocks: seq<seq<bv8>>)
    requires AllBlocks(blocks)
    ensures |Flat(blocks)| == |blocks| * BLOCK_SIZE
  {
    if blocks != [] { FlatSize(blocks[1..]); }
  }

  /** When the sender has had every block from `k` on acknowledged, a device that has not given up holds them all if and
      only if every one of the acknowledgements was backed. */
  lemma {:induction false} SendFromExact(d: Device, content: seq<bv8>, packets: seq<seq<bv8>>, blocks: seq<seq<bv8>>,
                                         k: nat, link: Link, works: nat -> bool)
    requires HonestFrames(link, blocks) && Carries(packets, blocks) && k <= |blocks| && AllBlocks(blocks)
    requires Ready(d, content, k, works) && |content| == k * BLOCK_SIZE
    ensures var report := SendFrom(d, k, packets, link, works);
            report.acked && report.device.status != Failed ==>
              (AllBacked(d, k, packets, link, works) <==>
               Ready(report.device, content + Flat(blocks[k..]), |blocks|, works))
    decreases |blocks| - k
  {
    hide TryBlock, Backed, Ready, HonestFrames, Packet, Lagging;
    if k == |blocks| {
      assert content + Flat(blocks[k..]) == content;
    } else {
      var report := TryBlock(d, k, packets[k], 0, [], link, works);
      TryBlockExact(d, content, blocks, k, 0, [], link, works);
      Regrouped(content, blocks[k..]);
      assert blocks[k..][1..] == blocks[k + 1..];
      if report.acked && report.device.status == Failed {
        FailedFrom(report.device, packets, k + 1, link, works);
      } else if report.acked {
        if Backed(d, k, packets[k], 0, [], link, works) {
          SendFromExact(report.device, content + blocks[k], packets, blocks, k + 1, link, works);
        } else {
          NeverAgain(report.device, content, packets, blocks, k, link, works);
        }
      }
    }
  }

  lemma NeverAgain(d: Device, content: seq<bv8>, packets: seq<seq<bv8>>, blocks: seq<seq<bv8>>, k: nat, link: Link,
                   works: nat -> bool)
    requires HonestFrames(link, blocks) && Carries(packets, blocks) && k < |blocks| && AllBlocks(blocks)
    requires Ready(d, content, k, works) && |content| == k * BLOCK_SIZE
    ensures var report := SendFrom(d, k + 1, packets, link, works);
            report.acked ==> !Ready(report.device, content + Flat(blocks[k..]), |blocks|, works)
  {
    hide SendFrom, Ready, HonestFrames, Lagging, Flat, Packet;
    BehindLags(d, content, k, works);
    LaggingFrom(d, packets, blocks, k + 1, link, works);
    FlatSize(blocks[k..]);
    var report := SendFrom(d, k + 1, packets, link, works);
    if report.acked {
      LaggingIsNotReady(report.device, |blocks|, content + Flat(blocks[k..]), works);
    }
  }

  /** The exact condition for a whole transfer, over any link whose frames are honest and whatever the sender reads: when
      every block has been acknowledged and the device has not given up, it holds the padded payload if and only if every
      acknowledgement that ended a block's attempts came after one that the device sent at that block. */
  lemma TransferExact(payload: seq<bv8>, link: Link, works: nat -> bool)
    requires HonestFrames(link, Blocks(payload))
    ensures var packets := Encoded(payload);
            var report := SendFrom(FRESH, 0, packets, link, works);
            report.acked && report.device.status != Failed ==>
              (AllBacked(FRESH, 0, packets, link, works) <==>
               Ready(report.device, Padded(payload), |packets|, works))
  {
    EncodedCarries(payload);
    hide Ready, Padded, SendFrom, Encoded, HonestFrames, Carries, AllBacked;
    var blocks := Blocks(payload);
    FreshIsReady(works);
    assert blocks[0..] == blocks && [] + Flat(blocks) == Flat(blocks);
    BlocksCarryPayload(payload);
    SendFromExact(FRESH, [], Encoded(payload), blocks, 0, link, works);
  }

  // ---------------------------------------------------------------------------------------------
  // Progress
  // ---------------------------------------------------------------------------------------------

  /** An attempt that comes to nothing: nobody cancels, and the sender reads a refusal or nothing at all. */
  ghost predicate Wasted(link: Link, i: nat, a: nat, packet: seq<bv8>) {
    Cancel !in link.sees(i, a, packet) && forall replies :: link.hears(i, a, replies) in {None, Some(NAK)}
  }

  /** An attempt that gets through: the frame arrives, and an acknowledgement sent last is read. */
  ghost predicate Through(link: Link, i: nat, a: nat, packet: seq<bv8>, frame: Arrival) {
    && link.sees(i, a, packet) == [frame]
    && forall replies :: replies != [] && replies[|replies| - 1] == ACK ==> link.hears(i, a, replies) == Some(ACK)
  }

  /** From attempt `a` on, the block gets through before the attempts run out. */
  ghost predicate GetsThrough(link: Link, i: nat, a: nat, packet: seq<bv8>, frame: Arrival)
    decreases ATTEMPTS - a
  {
    a < 3 && (Through(link, i, a, packet, frame)
              || (Wasted(link, i, a, packet) && GetsThrough(link, i, a + 1, packet, frame)))
  }

  /** Every block gets through, and so does the end mark. */
  ghost predicate Serviceable(link: Link, blocks: seq<seq<bv8>>) {
    && (forall i :: 0 <= i < |blocks| ==>
          GetsThrough(link, i, 0, Packet(BlockNumber(i), blocks[i]), FrameOf(BlockNumber(i), blocks[i])))
    && link.endSees == [End] && link.endHears([ACK]) == Some(ACK)
  }

  lemma ObeyOne(d: Device, x: Arrival, works: nat -> bool)
    ensures Obey(d, [x], works) == Step(d, x, works)
  {
    hide Step;
    var turn := Step(d, x, works);
    assert [x][1..] == [] && turn.replies + [] == turn.replies;
  }

  lemma SoundAttempt(d: Device, before: seq<bv8>, data: seq<bv8>, k: nat, works: nat -> bool)
    requires data != [] && Writable(Flushed(|before| + |data|), works)
    requires Ready(d, before, k, works) || Ready(d, before + data, k + 1, works)
    ensures var turn := Obey(d, [FrameOf(BlockNumber(k), data)], works);
            turn.replies == [ACK] && Ready(turn.device, before + data, k + 1, works)
  {
    hide Obey, Step, Ready, FrameOf, Flushed, Writable;
    ObeyOne(d, FrameOf(BlockNumber(k), data), works);
    if Ready(d, before, k, works) {
      DueFrame(d, before, k, data, works);
    } else {
      RepeatedFrame(d, before + data, k, data, works);
    }
  }

  lemma WastedAttempt(d: Device, before: seq<bv8>, blocks: seq<seq<bv8>>, k: nat, a: nat, link: Link,
                      works: nat -> bool)
    requires Faithful(link, blocks) && k < |blocks| && a < ATTEMPTS && blocks[k] != []
    requires Wasted(link, k, a, Packet(BlockNumber(k), blocks[k])) && Writable(Flushed(|before + blocks[k]|), works)
    requires Ready(d, before, k, works) || Ready(d, before + blocks[k], k + 1, works)
    ensures var turn := Obey(d, link.sees(k, a, Packet(BlockNumber(k), blocks[k])), works);
            Ready(turn.device, before, k, works) || Ready(turn.device, before + blocks[k], k + 1, works)
  {
    ServingWhenReady(d, before, k, works);
    ServingWhenReady(d, before + blocks[k], k + 1, works);
    hide Obey, Ready, Honest, FrameOf, Flushed, Writable, Packet;
    var arrivals := link.sees(k, a, Packet(BlockNumber(k), blocks[k]));
    assert Honest(arrivals, BlockNumber(k), blocks[k]);
    OfferedMany(d, before, blocks[k], k, arrivals, works);
  }

  lemma {:induction false} TryBlockSucceeds(d: Device, before: seq<bv8>, blocks: seq<seq<bv8>>, k: nat, a: nat,
                                            sent: seq<bv8>, link: Link, works: nat -> bool)
    requires Faithful(link, blocks) && k < |blocks| && a <= ATTEMPTS && blocks[k] != []
    requires GetsThrough(link, k, a, Packet(BlockNumber(k), blocks[k]), FrameOf(BlockNumber(k), blocks[k]))
    requires Writable(Flushed(|before + blocks[k]|), works)
    requires Ready(d, before, k, works) || Ready(d, before + blocks[k], k + 1, works)
    ensures var report := TryBlock(d, k, Packet(BlockNumber(k), blocks[k]), a, sent, link, works);
            report.acked && Ready(report.device, before + blocks[k], k + 1, works)
    decreases ATTEMPTS - a
  {
    hide Obey, Ready, Faithful, FrameOf, Flushed, Writable, Packet;
    var data, packet := blocks[k], Packet(BlockNumber(k), blocks[k]);
    assert |before + data| == |before| + |data|;
    var turn := Obey(d, link.sees(k, a, packet), works);
    var replies := sent + turn.replies;
    if Through(link, k, a, packet, FrameOf(BlockNumber(k), data)) {
      SoundAttempt(d, before, data, k, works);
      assert replies[|replies| - 1] == ACK;
    } else {
      WastedAttempt(d, before, blocks, k, a, link, works);
      assert link.hears(k, a, replies) in {None, Some(NAK)};
      ReplyBytes();
      TryBlockSucceeds(turn.device, before, blocks, k, a + 1, replies, link, works);
    }
  }

  lemma ServingWhenReady(d: Device, content: seq<bv8>, k: nat, works: nat -> bool)
    ensures Ready(d, content, k, works) ==> d.status == Serving
  {
  }

  lemma {:induction false} SendFromSucceeds(d: Device, content: seq<bv8>, packets: seq<seq<bv8>>,
                                            blocks: seq<seq<bv8>>, k: nat, link: Link, works: nat -> bool)
    requires Faithful(link, blocks) && Serviceable(link, blocks) && Carries(packets, blocks)
    requires k <= |blocks| && AllBlocks(blocks)
    requires Ready(d, content, k, works) && Writable(Flushed(|content + Flat(blocks[k..])|) + PAGE_SIZE, works)
    ensures var report := SendFrom(d, k, packets, link, works);
            report.acked && Ready(report.device, content + Flat(blocks[k..]), |blocks|, works)
    decreases |blocks| - k
  {
    hide TryBlock, Ready, Faithful, FrameOf, Flushed, Writable, Packet, GetsThrough;
    if k == |blocks| {
      assert content + Flat(blocks[k..]) == content;
    } else {
      Regrouped(content, blocks[k..]);
      assert blocks[k..][1..] == blocks[k + 1..];
      FullWritable(content + blocks[k], Flat(blocks[k + 1..]), works);
      TryBlockSucceeds(d, content, blocks, k, 0, [], link, works);
      var report := TryBlock(d, k, packets[k], 0, [], link, works);
      SendFromSucceeds(report.device, content + blocks[k], packets, blocks, k + 1, link, works);
    }
  }

  /** A payload that fits in working flash does get there, when no block needs more than its three attempts. */
  lemma ServiceableLinkSucceeds(payload: seq<bv8>, link: Link, works: nat -> bool)
    requires Faithful(link, Blocks(payload)) && Serviceable(link, Blocks(payload))
    requires Writable(Flushed(|Padded(payload)|) + PAGE_SIZE, works)
    ensures Send(Encoded(payload), link, works).acked
  {
    EncodedCarries(payload);
    hide Obey, Image, Ready, Padded, SendFrom, Faithful, Flushed, Writable, Encoded, Carries, GetsThrough;
    var blocks := Blocks(payload);
    FreshIsReady(works);
    assert blocks[0..] == blocks && [] + Flat(blocks) == Flat(blocks);
    BlocksCarryPayload(payload);
    SendFromSucceeds(FRESH, [], Encoded(payload), blocks, 0, link, works);
    var report := SendFrom(FRESH, 0, Encoded(payload), link, works);
    EndArrives(report.device, Padded(payload), |blocks|, works);
    ObeyOne(report.device, End, works);
  }

  /** What the device makes of one packet on a quiet line. */
  function Undamaged(packet: seq<bv8>): seq<Arrival> {
    if |packet| >= 5 && packet[0] == STX then [ToFrame(packet[1..])] else []
  }

  function LastReply(replies: seq<bv8>): Option<bv8> {
    if replies == [] then None else Some(replies[|replies| - 1])
  }

  /** The undisturbed link: every packet arrives as it was sent, and the latest reply is read. */
  function CleanLink(): Link {
    Link((i, a, packet) => Undamaged(packet), (i, a, replies) => LastReply(replies), [End], replies => LastReply(replies))
  }

  lemma UndamagedIs(number: bv8, data: seq<bv8>)
    ensures Undamaged(Packet(number, data)) == [FrameOf(number, data)]
    ensures Honest([FrameOf(number, data)], number, data)
  {
    SentIsFrame(number, data);
    hide Packet, FrameOf, Passes, ToFrame;
    PacketFrame(number, data);
  }

  /** The undisturbed link is one that both claims speak of. */
  lemma CleanLinkServes(blocks: seq<seq<bv8>>)
    ensures Faithful(CleanLink(), blocks) && Serviceable(CleanLink(), blocks)
  {
    hide Passes, FrameOf, BlockNumber, Packet, Undamaged, Honest;
    var link := CleanLink();
    forall i | 0 <= i < |blocks|
      ensures Undamaged(Packet(BlockNumber(i), blocks[i])) == [FrameOf(BlockNumber(i), blocks[i])]
      ensures Honest([FrameOf(BlockNumber(i), blocks[i])], BlockNumber(i), blocks[i])
    {
      UndamagedIs(BlockNumber(i), blocks[i]);
    }
    forall i | 0 <= i < |blocks|
      ensures GetsThrough(link, i, 0, Packet(BlockNumber(i), blocks[i]), FrameOf(BlockNumber(i), blocks[i]))
    {
      assert Through(link, i, 0, Packet(BlockNumber(i), blocks[i]), FrameOf(BlockNumber(i), blocks[i]));
    }
    assert HonestEnd(link.endSees);
  }

  // ---------------------------------------------------------------------------------------------
  // What the check catches, and what it does not
  // ---------------------------------------------------------------------------------------------

  /** A frame as long as the one sent, its block and CRC damaged within sixteen consecutive bits from `k` on, or in an odd
      number of bits anywhere. Its number and complement may be anything. */
  ghost predicate DamagedAt(data: seq<bv8>, frame: Arrival, k: nat) {
    && frame.Frame? && |frame.data| == |data|
    && var sent, got := data + [High(Crc(data)), LowByte(Crc(data))], frame.data + [frame.high, frame.low];
       || Parity(Difference(Bits(sent), Bits(got)))
       || (sent != got && forall i :: 0 <= i < |Bits(sent)| && Bits(sent)[i] != Bits(got)[i] ==> k <= i < k + 16)
  }

  /** Such damage fails the check. */
  lemma DamageFails(data: seq<bv8>, frame: Arrival, k: nat)
    requires DamagedAt(data, frame, k)
    ensures !Passes(frame)
  {
    var sent, got := data + [High(Crc(data)), LowByte(Crc(data))], frame.data + [frame.high, frame.low];
    hide Crc, Word, Bits, High, LowByte;
    WordOfBytes(Crc(data));
    ResidueExact(data, High(Crc(data)), LowByte(Crc(data)));
    ResidueExact(frame.data, frame.high, frame.low);
    if Parity(Difference(Bits(sent), Bits(got))) {
      OddErrorsDetected(sent, got);
    } else {
      BurstDetected(sent, got, k);
    }
  }

  ghost predicate Damaged(data: seq<bv8>, frame: Arrival) {
    exists k :: DamagedAt(data, frame, k)
  }

  /** Silence, a cancellation, the frame that was sent, damage to its block and CRC, or damage to its number or to the
      complement of it. */
  ghost predicate Battered(arrivals: seq<Arrival>, number: bv8, data: seq<bv8>) {
    forall x :: x in arrivals ==>
      x == Quiet || x == Cancel || x == FrameOf(number, data) || Damaged(data, x) || Relabelled(number, data, x)
  }

  lemma BatteredIsHonest(arrivals: seq<Arrival>, number: bv8, data: seq<bv8>)
    requires Battered(arrivals, number, data)
    ensures Honest(arrivals, number, data)
  {
    hide Passes, FrameOf, DamagedAt, Relabelled;
    forall x | x in arrivals ensures x != End && (x.Frame? && Passes(x) ==> x == FrameOf(number, data)) {
      if Damaged(data, x) {
        var k :| DamagedAt(data, x, k);
        DamageFails(data, x, k);
        DamagedIsFrame(data, x, k);
      } else if Relabelled(number, data, x) {
        RelabelledRefused(FRESH, number, data, x, _ => true);
        RelabelledIsFrame(number, data, x);
      } else {
        SentIsFrame(number, data);
      }
    }
  }

  lemma DamagedIsFrame(data: seq<bv8>, frame: Arrival, k: nat)
    requires DamagedAt(data, frame, k)
    ensures frame.Frame?
  {
    hide Bits, Crc, High, LowByte;
  }

  lemma RelabelledIsFrame(number: bv8, data: seq<bv8>, frame: Arrival)
    requires Relabelled(number, data, frame)
    ensures frame.Frame?
  {
  }

  lemma SentIsFrame(number: bv8, data: seq<bv8>)
    ensures FrameOf(number, data).Frame?
  {
  }

  /** Everything that arrives during any attempt at any block is of that kind. */
  ghost predicate AllBattered(link: Link, blocks: seq<seq<bv8>>) {
    forall i, a :: 0 <= i < |blocks| && 0 <= a < ATTEMPTS ==> BatteredAt(link, blocks, i, a)
  }

  ghost predicate BatteredAt(link: Link, blocks: seq<seq<bv8>>, i: nat, a: nat)
    requires i < |blocks|
  {
    Battered(link.sees(i, a, Packet(BlockNumber(i), blocks[i])), BlockNumber(i), blocks[i])
  }

  /** A link that loses, repeats and damages frames as above, and on which acknowledgements may be lost or, at the same
      block, late, is faithful: what the sender takes for success is success. */
  lemma BatteredLinkIsSafe(payload: seq<bv8>, link: Link, works: nat -> bool)
    requires AllBattered(link, Blocks(payload))
    requires forall i: nat, a: nat, replies :: link.hears(i, a, replies) == Some(ACK) ==> ACK in replies
    requires HonestEnd(link.endSees) && forall replies :: link.endHears(replies) == Some(ACK) ==> ACK in replies
    ensures var report := Send(Encoded(payload), link, works);
            report.acked ==> report.device.status == Programmed && report.device.flash == Image(Padded(payload))
  {
    hide Battered, Honest, HonestEnd, Packet, BlockNumber, Blocks, Send, Encoded, Image, Padded;
    var blocks := Blocks(payload);
    forall i, a | 0 <= i < |blocks| && 0 <= a < ATTEMPTS
      ensures Honest(link.sees(i, a, Packet(BlockNumber(i), blocks[i])), BlockNumber(i), blocks[i])
    {
      assert BatteredAt(link, blocks, i, a);
      BatteredIsHonest(link.sees(i, a, Packet(BlockNumber(i), blocks[i])), BlockNumber(i), blocks[i]);
    }
    assert Faithful(link, blocks);
    AcknowledgedIsProgrammed(payload, link, works);
  }

  /** The CRC does not cover the header: a due block whose number arrives as the one before it, complement included, is
      acknowledged and dropped. When the number due is odd, one flipped bit in each of the two bytes does it. */
  lemma HeaderDamageDropsBlock(d: Device, data: seq<bv8>, n: nat, works: nat -> bool)
    requires d.status == Serving
    ensures Misleading(d, FrameOf(Preceding(d.expected), data), n, data, works)
    ensures Step(d, FrameOf(Preceding(d.expected), data), works) == Turn(d, [ACK])
    ensures d.expected & 1 == 1 ==> (d.expected ^ Preceding(d.expected) == 1
                                     && (0xff - d.expected) ^ (0xff - Preceding(d.expected)) == 1)
  {
    FramePasses(Preceding(d.expected), data);
    OddNumber(d.expected);
    hide Passes, Crc, High, LowByte, Store, Preceding;
  }

  lemma OddNumber(n: bv8)
    ensures n & 1 == 1 ==> n ^ Preceding(n) == 1 && (0xff - n) ^ (0xff - Preceding(n)) == 1
  {
  }

  /** A link that loses nothing but the frames of the second block, and on which acknowledgements come late: the sender
      gives up waiting for the first and repeats itself, reads that one then, and at the next block the one that its
      repetition drew. */
  function LateLink(): Link {
    Link((i, a, packet) => if i == 0 then Undamaged(packet) else [],
         (i, a, replies) => if i == 0 && a == 0 then None else Some(ACK), [End], replies => LastReply(replies))
  }

  lemma TwoBlocks(payload: seq<bv8>)
    requires BLOCK_SIZE < |payload| <= 2 * BLOCK_SIZE
    ensures |Encoded(payload)| == 2 && Encoded(payload)[0] == Packet(BlockNumber(0), payload[..BLOCK_SIZE])
  {
    assert |Blocks(payload[BLOCK_SIZE..])| == 1;
    EncodedCarries(payload);
    hide Encoded, Packet, BlockNumber;
  }

  /** The acknowledgements carry no number. Over the late link the device sends two at the first block and one for the
      end mark, the sender reads those three and no others, and reports success for an image that lacks its second
      block. */
  lemma StaleAcknowledgementDropsBlock(payload: seq<bv8>, works: nat -> bool)
    requires BLOCK_SIZE < |payload| <= 2 * BLOCK_SIZE && works(0)
    ensures var link, packets := LateLink(), Encoded(payload);
            var first := Obey(FRESH, link.sees(0, 0, packets[0]), works);
            var again := Obey(first.device, link.sees(0, 1, packets[0]), works);
            var second := Obey(again.device, link.sees(1, 0, packets[1]), works);
            var end := Obey(second.device, link.endSees, works);
            && (first.replies, again.replies, second.replies, end.replies) == ([ACK], [ACK], [], [ACK])
            && link.hears(0, 0, [ACK]) == None && link.hears(0, 1, [ACK, ACK]) == Some(ACK)
            && link.hears(1, 0, []) == Some(ACK) && link.endHears([ACK]) == Some(ACK)
    ensures HonestFrames(LateLink(), Blocks(payload))
    ensures var report := Send(Encoded(payload), LateLink(), works);
            report.acked && report.device.flash == Image(payload[..BLOCK_SIZE])
    ensures payload[BLOCK_SIZE] != 0xff ==> Image(payload[..BLOCK_SIZE]) != Image(Padded(payload))
  {
    var first, packets, link := payload[..BLOCK_SIZE], Encoded(payload), LateLink();
    TwoBlocks(payload);
    UndamagedIs(BlockNumber(0), first);
    LateIsHonest(payload);
    LateTurns(first, works);
    SecondMissing(payload);
    hide Obey, Image, FrameOf, Blocks, Encoded, Undamaged, Packet, HonestFrames, BlockNumber, Padded;
    var one := Obey(FRESH, [FrameOf(BlockNumber(0), first)], works);
    var two := Obey(one.device, [FrameOf(BlockNumber(0), first)], works);
    ObeyNothing(two.device, works);
    LateRun(packets, one, two, works);
  }

  lemma SecondMissing(payload: seq<bv8>)
    requires BLOCK_SIZE < |payload| <= 2 * BLOCK_SIZE
    ensures payload[BLOCK_SIZE] != 0xff ==> Image(payload[..BLOCK_SIZE]) != Image(Padded(payload))
  {
    assert Image(payload[..BLOCK_SIZE])[BLOCK_SIZE] == 0xff;
    assert Image(Padded(payload))[BLOCK_SIZE] == payload[BLOCK_SIZE];
  }

  lemma LateTurns(first: seq<bv8>, works: nat -> bool)
    requires |first| == BLOCK_SIZE && works(0)
    ensures var frame := [FrameOf(BlockNumber(0), first)];
            var one := Obey(FRESH, frame, works);
            var two := Obey(one.device, frame, works);
            var end := Obey(two.device, [End], works);
            && one.replies == [ACK] && two.replies == [ACK] && end.replies == [ACK]
            && end.device.flash == Image(first)
  {
    assert Flushed(|first|) == 0 && [] + first == first;
    assert Writable(PAGE_SIZE, works);
    hide Obey, Image, Ready, FrameOf, BlockNumber;
    FreshIsReady(works);
    var one := Obey(FRESH, [FrameOf(BlockNumber(0), first)], works);
    SoundAttempt(FRESH, [], first, 0, works);
    var two := Obey(one.device, [FrameOf(BlockNumber(0), first)], works);
    SoundAttempt(one.device, [], first, 0, works);
    EndArrives(two.device, first, 1, works);
    ObeyOne(two.device, End, works);
  }

  lemma LateRun(packets: seq<seq<bv8>>, one: Turn, two: Turn, works: nat -> bool)
    requires |packets| == 2
    requires one == Obey(FRESH, Undamaged(packets[0]), works) && two == Obey(one.device, Undamaged(packets[0]), works)
    requires one.replies == [ACK] && two.replies == [ACK]
    ensures SendFrom(FRESH, 0, packets, LateLink(), works) == Report(two.device, true)
  {
    hide Undamaged, Obey;
    ReplyBytes();
    ObeyNothing(two.device, works);
    var link := LateLink();
    assert [] + [ACK] == [ACK] && [ACK] + [ACK] == [ACK, ACK];
    assert TryBlock(one.device, 0, packets[0], 1, [ACK], link, works) == Report(two.device, true);
    assert TryBlock(FRESH, 0, packets[0], 0, [], link, works) == Report(two.device, true);
    assert TryBlock(two.device, 1, packets[1], 0, [], link, works) == Report(two.device, true);
    assert SendFrom(two.device, 1, packets, link, works) == SendFrom(two.device, 2, packets, link, works);
  }

  lemma LateIsHonest(payload: seq<bv8>)
    ensures HonestFrames(LateLink(), Blocks(payload))
  {
    hide Undamaged, Packet, BlockNumber, Blocks, Passes, FrameOf;
    var blocks, link := Blocks(payload), LateLink();
    forall i, a | 0 <= i < |blocks| && 0 <= a < ATTEMPTS
      ensures Honest(link.sees(i, a, Packet(BlockNumber(i), blocks[i])), BlockNumber(i), blocks[i])
    {
      UndamagedIs(BlockNumber(i), blocks[i]);
    }
  }

  lemma ObeyNothing(d: Device, works: nat -> bool)
    ensures Obey(d, [], works) == Turn(d, [])
  {
  }
}
