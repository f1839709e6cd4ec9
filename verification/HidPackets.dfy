/** The HID packet format shared by the Python host and both device generations: up to 62
    payload bytes behind two header bytes. */
module HidPackets {
  import opened Wrappers

  /** The payload of a message between the two MCUs. */
  const PAYLOAD_LENGTH: nat := 536

  const PACKET_SIZE: nat := 64
  const MAX_PAYLOAD: nat := 62
  const MAX_PACKETS: nat := 16

  // Byte 0: payload length, acknowledge request, flip bit. Byte 1: number of the last packet, packet number.

  function LengthOf(p: seq<byte>): nat requires |p| >= 2 { p[0] % 64 }
  predicate AckOf(p: seq<byte>) requires |p| >= 2 { p[0] / 64 % 2 == 1 }
  predicate FlipOf(p: seq<byte>) requires |p| >= 2 { p[0] >= 128 }
  function TotalOf(p: seq<byte>): nat requires |p| >= 2 { p[1] % 16 }
  function IdOf(p: seq<byte>): nat requires |p| >= 2 { p[1] / 16 }

  /** A packet with room for the payload it announces. */
  type Framed = p: seq<byte> | |p| >= 2 && 2 + LengthOf(p) <= |p| witness [0, 0]

  function Body(p: Framed): seq<byte> {
    p[2..2 + LengthOf(p)]
  }

  function Bodies(ps: seq<Framed>): seq<byte> {
    if ps == [] then [] else Bodies(ps[..|ps| - 1]) + Body(ps[|ps| - 1])
  }

  /** The flip-bit reset marker. */
  predicate IsMarker(p: seq<byte>) {
    |p| >= 2 && p[0] == 0xFF && p[1] == 0xFF
  }

  function Header0(flip: bool, ack: bool, length: nat): byte
    requires length < 64
  {
    (if flip then 128 else 0) + (if ack then 64 else 0) + length
  }

  function Header1(id: nat, last: nat): byte
    requires id < 16 && last < 16
  {
    id * 16 + last
  }

  lemma HeaderFields(p: seq<byte>, flip: bool, ack: bool, length: nat, id: nat, last: nat)
    requires length < 64 && id < 16 && last < 16
    requires |p| >= 2 && p[0] == Header0(flip, ack, length) && p[1] == Header1(id, last)
    ensures LengthOf(p) == length && AckOf(p) == ack && FlipOf(p) == flip && IdOf(p) == id && TotalOf(p) == last
    ensures IsMarker(p) ==> length == 63
  {
  }

  // ---------------------------------------------------------------- fragments of a message

  function Count(n: nat): nat {
    (n + MAX_PAYLOAD - 1) / MAX_PAYLOAD
  }

  /** The end of the k-th fragment. */
  function End(n: nat, k: nat): nat {
    if k * MAX_PAYLOAD < n then k * MAX_PAYLOAD else n
  }

  lemma ChunkBounds(n: nat, k: nat)
    requires k < Count(n)
    ensures End(n, k) == k * MAX_PAYLOAD < End(n, k + 1) <= n
    ensures End(n, k + 1) - End(n, k) <= MAX_PAYLOAD
    ensures k + 1 < Count(n) <==> (k + 1) * MAX_PAYLOAD < n
    ensures k + 1 == Count(n) ==> End(n, k + 1) == n
    ensures k + 1 < Count(n) ==> End(n, k + 1) == (k + 1) * MAX_PAYLOAD
  {
  }

  function Chunk(m: seq<byte>, k: nat): seq<byte>
    requires k < Count(|m|)
  {
    ChunkBounds(|m|, k);
    m[End(|m|, k)..End(|m|, k + 1)]
  }

  predicate Sendable(m: seq<byte>)
    ensures Sendable(m) ==> 1 <= Count(|m|) <= MAX_PACKETS
  {
    1 <= |m| <= MAX_PAYLOAD * MAX_PACKETS
  }

  lemma CountBounds(n: nat)
    requires 1 <= n <= MAX_PAYLOAD * MAX_PACKETS
    ensures 1 <= Count(n) <= MAX_PACKETS
  {
  }

  function Packet(m: seq<byte>, flip: bool, ack: bool, k: nat): seq<byte>
    requires k < Count(|m|) <= MAX_PACKETS
  {
    ChunkBounds(|m|, k);
    [Header0(flip, ack, |Chunk(m, k)|), Header1(k, Count(|m|) - 1)] + Chunk(m, k)
  }

  /** The first k packets of a message. */
  function Packets(m: seq<byte>, flip: bool, ack: bool, k: nat): seq<seq<byte>>
    requires k <= Count(|m|) <= MAX_PACKETS
  {
    if k == 0 then [] else Packets(m, flip, ack, k - 1) + [Packet(m, flip, ack, k - 1)]
  }

  function AllPackets(m: seq<byte>, flip: bool, ack: bool): seq<seq<byte>>
    requires Count(|m|) <= MAX_PACKETS
  {
    Packets(m, flip, ack, Count(|m|))
  }

  lemma PacketFields(m: seq<byte>, flip: bool, ack: bool, k: nat)
    requires k < Count(|m|) <= MAX_PACKETS
    ensures var p := Packet(m, flip, ack, k);
            && |p| == 2 + LengthOf(p) && p[2..] == Chunk(m, k)
            && 1 <= LengthOf(p) <= MAX_PAYLOAD && FlipOf(p) == flip && AckOf(p) == ack
            && IdOf(p) == k && TotalOf(p) == Count(|m|) - 1 && !IsMarker(p)
            && p[0] == (if flip then 128 else 0) + (if ack then 64 else 0) + LengthOf(p)
            && p[1] == 16 * k + Count(|m|) - 1
  {
    ChunkBounds(|m|, k);
    HeaderFields(Packet(m, flip, ack, k), flip, ack, |Chunk(m, k)|, k, Count(|m|) - 1);
  }

  lemma {:induction false} PacketsAt(m: seq<byte>, flip: bool, ack: bool, k: nat, i: nat)
    requires i < k <= Count(|m|) <= MAX_PACKETS
    ensures |Packets(m, flip, ack, k)| == k && Packets(m, flip, ack, k)[i] == Packet(m, flip, ack, i)
    decreases k
  {
    hide Packet;
    if i < k - 1 {
      PacketsAt(m, flip, ack, k - 1, i);
    } else if k > 1 {
      PacketsAt(m, flip, ack, k - 1, 0);
    }
  }

  /** The count written by the v1 device: the quotient, less one when the division is exact. */
  function LastIdV1(n: nat): int {
    n / MAX_PAYLOAD - if n % MAX_PAYLOAD == 0 && n > 0 then 1 else 0
  }

  /** The three ways in which host, v1 and v2 compute the number of the last packet agree on
      every non-empty length. */
  lemma CountsAgree(n: nat)
    ensures n > 0 ==> LastIdV1(n) == Count(n) - 1
    ensures n == 0 ==> LastIdV1(n) == 0 && Count(n) == 0
  {
  }
}
