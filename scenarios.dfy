/**
 * The two messages the firmware itself deals in: the "/NoticeMe" registration
 * it broadcasts from connect, and the "/OSCInstrument/play" note messages the
 * controller sends to it.
 */
module OscScenarios {
  import opened OscBytes
  import opened OscMessage
  import opened OscReceive
  import opened OscDispatch

  /** "OSCInstrument", the name main gives the instrument. */
  const InstrumentName: seq<Byte> := [0x4F, 0x53, 0x43, 0x49, 0x6E, 0x73, 0x74, 0x72, 0x75, 0x6D, 0x65, 0x6E, 0x74]

  /** "/OSCInstrument/play" */
  const PlayAddress: seq<Byte> := [Slash] + InstrumentName + [Slash] + PlayCommand

  /** "NoticeMe" and the registration address "/NoticeMe". */
  const NoticeMeName: seq<Byte> := [0x4E, 0x6F, 0x74, 0x69, 0x63, 0x65, 0x4D, 0x65]
  const NoticeMe: seq<Byte> := [Slash] + NoticeMeName

  /** ",ss" */
  const StringPair: seq<Byte> := [0x2C, 0x73, 0x73]

  /** "10.0.0.5", an address the Ethernet interface may report. */
  const SampleIp: seq<Byte> := [0x31, 0x30, 0x2E, 0x30, 0x2E, 0x30, 0x2E, 0x35]

  lemma PlayAddressTokens()
    ensures Tokens(PlayAddress) == [InstrumentName, PlayCommand]
  {
    PathTokens(InstrumentName, PlayCommand);
  }

  /** After the first strtok call on "/OSCInstrument/play" the address array
      reads "/OSCInstrument", which is what osc_dispatch prints, and the next
      call starts at "play". */
  lemma PlayAddressAfterFirstCall()
    ensures var b := PlayAddress + [Nul];
      && CString(CutBuffer(b, 0)) == [Slash] + InstrumentName
      && NextFrom(b, 0) == |InstrumentName| + 2
  {
    var b := PlayAddress + [Nul];
    var n := |InstrumentName|;
    PlayAddressCut();
    assert b[0..] == b;
    var r := b[n + 1 := Nul];
    assert r[..n + 1] == [Slash] + InstrumentName && Nul !in r[..n + 1];
    CStringAt(r, n + 1);
  }

  /** The first call on "/OSCInstrument/play" writes its NUL over the second '/'. */
  lemma PlayAddressCut()
    ensures CString(PlayAddress + [Nul]) == PlayAddress
    ensures CutAt(PlayAddress) == Some(|InstrumentName| + 1)
  {
    var b := PlayAddress + [Nul];
    CStringAt(b, |PlayAddress|);
    assert b[..|PlayAddress|] == PlayAddress;
    LeadingSlashesAt(PlayAddress, 1);
    var t := PlayAddress[1..];
    assert t == InstrumentName + [Slash] + PlayCommand;
    TokenLengthAt(t, |InstrumentName|);
  }

  /**
   * A note built by build_osc_message for "/name/play" with two ints,
   * flattened and received, is dispatched as Play, and the pitch and velocity
   * come out byte-swapped: build stores them in host order, the dispatcher
   * reads network order.  Whatever padding receive over-counts lies after
   * the two words, so the note itself is unaffected.
   */
  lemma PlayNoteEndToEnd(name: seq<Byte>, m: Message, pitch: Word, velocity: Word, stale: seq<Byte>)
    requires name != [] && Slash !in name
    requires m.Valid() && m.address == [Slash] + name + [Slash] + PlayCommand && m.format == IntPair
    requires m.dataSize == EncodedSize([IntField(pitch), IntField(velocity)])
    requires m.data[..m.dataSize] == EncodeAll([IntField(pitch), IntField(velocity)])
    requires |Flattened(m)| + |stale| == MaxDatagram
    ensures var r := ParseBody(|Flattened(m)|, Arrived(m, stale));
      && r.Ok?
      && Decide(name, r.value.address, r.value.format, r.value.data)
         == Play(SwapEndian(pitch), SwapEndian(velocity))
    ensures var r := ParseBodyExact(|Flattened(m)|, Arrived(m, stale));
      && r.Ok?
      && Decide(name, r.value.address, r.value.format, r.value.data)
         == Play(SwapEndian(pitch), SwapEndian(velocity))
  {
    PathTokens(name, PlayCommand);
    HostWordOfHostBytes(pitch);
    HostWordOfHostBytes(velocity);
    ReceivedIntPair(m, pitch, velocity, stale);
    var r := ParseBody(|Flattened(m)|, Arrived(m, stale)).value;
    DecidePlay(name, r.address, r.format, r.data);
    ReceivedIntPairExact(m, pitch, velocity, stale);
    var e := ParseBodyExact(|Flattened(m)|, Arrived(m, stale)).value;
    DecidePlay(name, e.address, e.format, e.data);
  }

  /** A received message built from two ints keeps its header and has the
      host-order bytes of the two ints at the front of its data. */
  lemma ReceivedIntPair(m: Message, first: Word, second: Word, stale: seq<Byte>)
    requires m.Valid()
    requires m.dataSize == EncodedSize([IntField(first), IntField(second)])
    requires m.data[..m.dataSize] == EncodeAll([IntField(first), IntField(second)])
    requires |Flattened(m)| + |stale| == MaxDatagram
    ensures var r := ParseBody(|Flattened(m)|, Arrived(m, stale));
      && r.Ok? && r.value.address == m.address && r.value.format == m.format
      && r.value.data[0..4] == HostBytes(first) && r.value.data[4..8] == HostBytes(second)
  {
    var fields := [IntField(first), IntField(second)];
    assert EncodeAll(fields) == HostBytes(first) + HostBytes(second) by {
      assert fields[..1] == [IntField(first)] && [IntField(first)][..0] == [];
    }
    var r := ParseBody(|Flattened(m)|, Arrived(m, stale));
    assert r.Ok? && r.value.address == m.address && r.value.format == m.format
      && r.value.data[..8] == m.data[..8] by {
      ParseFlattened(m, stale);
    }
    SplitWords(r.value.data, first, second);
  }

  /** The same with data_size taken from the cursor. */
  lemma ReceivedIntPairExact(m: Message, first: Word, second: Word, stale: seq<Byte>)
    requires m.Valid()
    requires m.dataSize == EncodedSize([IntField(first), IntField(second)])
    requires m.data[..m.dataSize] == EncodeAll([IntField(first), IntField(second)])
    requires |Flattened(m)| + |stale| == MaxDatagram
    ensures var r := ParseBodyExact(|Flattened(m)|, Arrived(m, stale));
      && r.Ok? && r.value.address == m.address && r.value.format == m.format
      && r.value.data[0..4] == HostBytes(first) && r.value.data[4..8] == HostBytes(second)
  {
    var fields := [IntField(first), IntField(second)];
    assert EncodeAll(fields) == HostBytes(first) + HostBytes(second) by {
      assert fields[..1] == [IntField(first)] && [IntField(first)][..0] == [];
    }
    var r := ParseBodyExact(|Flattened(m)|, Arrived(m, stale));
    assert r.Ok? && r.value.address == m.address && r.value.format == m.format
      && r.value.data[..8] == m.data[..8] by {
      ParseExactFlattened(m, stale);
    }
    SplitWords(r.value.data, first, second);
  }

  lemma SplitWords(d: seq<Byte>, first: Word, second: Word)
    requires |d| >= 8 && d[..8] == HostBytes(first) + HostBytes(second)
    ensures d[0..4] == HostBytes(first) && d[4..8] == HostBytes(second)
  {
    assert d[0..4] == d[..8][0..4] && d[4..8] == d[..8][4..8];
  }

  /** The firmware's own instance: "/OSCInstrument/play" with ",ii". */
  lemma InstrumentPlayEndToEnd(m: Message, pitch: Word, velocity: Word, stale: seq<Byte>)
    requires m.Valid() && m.address == PlayAddress && m.format == IntPair
    requires m.dataSize == EncodedSize([IntField(pitch), IntField(velocity)])
    requires m.data[..m.dataSize] == EncodeAll([IntField(pitch), IntField(velocity)])
    requires |Flattened(m)| + |stale| == MaxDatagram
    ensures var r := ParseBody(|Flattened(m)|, Arrived(m, stale));
      && r.Ok?
      && Decide(InstrumentName, r.value.address, r.value.format, r.value.data)
         == Play(SwapEndian(pitch), SwapEndian(velocity))
  {
    PlayNoteEndToEnd(InstrumentName, m, pitch, velocity, stale);
  }

  /** Another instrument's registration reaching this dispatcher is dropped. */
  lemma NoticeMeIsForAnotherInstrument(m: Message)
    requires |m.data| >= 8 && m.address == NoticeMe
    ensures Decide(InstrumentName, m.address, m.format, m.data) == OtherInstrument(NoticeMeName)
  {
    OnePartPath(NoticeMeName);
    assert NoticeMeName != InstrumentName;
    DecideOther(InstrumentName, m.address, m.format, m.data);
  }

  /**
   * The registration message arrives with data_size two too large: the
   * address "/NoticeMe" carries two padding bytes that receive counts as data,
   * so two stale bytes follow the real data.
   */
  lemma NoticeMeOverCount(m: Message, name: seq<Byte>, ip: seq<Byte>, stale: seq<Byte>)
    requires m.Valid() && m.address == NoticeMe && m.format == StringPair
    requires m.dataSize == EncodedSize([StringField(name), StringField(ip)]) <= DataCapacity - 2
    requires |Flattened(m)| + |stale| == MaxDatagram
    ensures var r := ParseBody(|Flattened(m)|, Arrived(m, stale));
      && r.Ok? && r.value.dataSize == m.dataSize + 2
      && r.value.data[..m.dataSize] == m.data[..m.dataSize]
      && r.value.data[m.dataSize..m.dataSize + 2] == stale[..2]
  {
    assert Padding(NoticeMe) == 2 && Padding(StringPair) == 0;
    ParseFlattened(m, stale);
  }

  /**
   * With the name "OSCInstrument" and the address "10.0.0.5" the datagram is
   * 44 bytes, 28 of them data, and receive records a data_size of 30; with
   * data_size taken from the cursor it records 28.
   */
  lemma NoticeMeSample(m: Message, stale: seq<Byte>)
    requires m.Valid() && m.address == NoticeMe && m.format == StringPair
    requires m.dataSize == EncodedSize([StringField(InstrumentName), StringField(SampleIp)])
    requires |Flattened(m)| + |stale| == MaxDatagram
    ensures m.dataSize == 28 && |Flattened(m)| == 44
    ensures var r := ParseBody(|Flattened(m)|, Arrived(m, stale));
      r.Ok? && r.value.dataSize == 30
    ensures var r := ParseBodyExact(|Flattened(m)|, Arrived(m, stale));
      r.Ok? && r.value.dataSize == 28
  {
    var fields := [StringField(InstrumentName), StringField(SampleIp)];
    assert fields[..1] == [StringField(InstrumentName)] && [StringField(InstrumentName)][..0] == [];
    assert OscSize(InstrumentName) == 16 && OscSize(SampleIp) == 12;
    assert EncodedSize(fields[..1]) == 16;
    assert EncodedSize(fields) == 28;
    FlattenedLayout(m);
    NoticeMeOverCount(m, InstrumentName, SampleIp, stale);
    ParseExactFlattened(m, stale);
  }
}
