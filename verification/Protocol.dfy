/** Protocols, priorities and messages (src/protocol.rs). */
module Protocols {
  import opened Bytes

  datatype Protocol = IridiumSBD | InmarsatC | VSAT | HFVHF | RockBLOCK | Samsara | NIDD | ASTSpaceMobile | LoRaMesh

  datatype Priority = Emergency | SafetyCritical | Operational | Diagnostic

  datatype Message = Message(
    protocol: Protocol, data: seq<byte>, priority: Priority, timestamp: u64, tEvent: u64, tSystem: u64)

  function MaxMessageSize(p: Protocol): nat {
    match p
    case IridiumSBD => 340
    case InmarsatC => 128
    case VSAT => 65536
    case HFVHF => 1024
    case RockBLOCK => 340
    case Samsara => 1048576
    case NIDD => 1600
    case ASTSpaceMobile => 120000000
    case LoRaMesh => 250
  }

  /** The spread from which a message counts as part of a reconnect burst. */
  function BurstThresholdMs(p: Protocol): (t: int)
    ensures 1_000 <= t <= 300_000
  {
    match p
    case Samsara => 5_000
    case IridiumSBD => 120_000
    case RockBLOCK => 120_000
    case InmarsatC => 300_000
    case VSAT => 3_000
    case HFVHF => 30_000
    case NIDD => 10_000
    case ASTSpaceMobile => 1_000
    case LoRaMesh => 60_000
  }

  /** 64-bit subtraction of the two timestamps, both cast to signed words. */
  function SpreadMs(m: Message): i64 {
    Signed((Signed(m.tSystem) - Signed(m.tEvent)) % TWO64)
  }

  /** Where the lag fits a signed word, the spread is the lag. */
  lemma SpreadIsLag(m: Message)
    requires -TWO63 <= m.tSystem - m.tEvent < TWO63
    ensures SpreadMs(m) == m.tSystem - m.tEvent
  {
  }

  /** `Message::new`: oversized data is cut to the protocol's maximum, all timestamps are the current time. */
  function NewMessage(p: Protocol, data: seq<byte>, priority: Priority, now: u64): Message {
    var n := MaxMessageSize(p);
    Message(p, if |data| > n then data[..n] else data, priority, now, now, now)
  }
}
