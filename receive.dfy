/**
 * The parsing half of OSCClient::receive.
 *
 * The transport call becomes two inputs: `recv`, what recvfrom returned, and
 * `buffer`, the whole 256-byte stack buffer it filled.  Bytes of `buffer` from
 * `recv` on are whatever the stack held before; the parser can read them,
 * because it looks for terminators with strlen and copies a length it computes
 * rather than one it received.  Every path on which the source reads or writes
 * outside its arrays ends in `Undefined`, naming what goes wrong; the source
 * itself checks none of them.
 */
module OscReceive {
  import opened OscBytes
  import opened OscMessage

  datatype Fault =
    | AddressUnterminated  // strlen(buffer) runs off the 256-byte buffer
    | AddressOverflow      // strcpy of 64 or more characters into address[64]
    | FormatUnterminated   // strlen at the format cursor runs off the buffer
    | FormatOverflow       // strcpy of 16 or more characters into format[16]
    | NegativeDataSize     // the computed size is negative, a huge size_t for memcpy
    | DataOverflow         // memcpy of more than 128 bytes into data[128]
    | ReadPastBuffer       // memcpy reads beyond the 256-byte buffer

  datatype Result<+T> = Ok(value: T) | Undefined(fault: Fault)

  datatype Header = Header(address: seq<Byte>, format: seq<Byte>)

  /** One string of the header: strlen from `at` finds the terminator, and
      strcpy into an array of `capacity` bytes needs the string to be shorter
      than that. */
  function ParseString(buffer: seq<Byte>, at: nat, capacity: nat, unterminated: Fault, overflow: Fault): (r: Result<seq<Byte>>)
    requires at <= |buffer|
    ensures r.Ok? ==>
      && |r.value| < capacity && Nul !in r.value
      && at + |r.value| < |buffer|
      && buffer[at..at + |r.value|] == r.value && buffer[at + |r.value|] == Nul
  {
    match FindNul(buffer, at)
    case None => Undefined(unterminated)
    case Some(e) =>
      if e - at >= capacity then Undefined(overflow) else Ok(buffer[at..e])
  }

  /**
   * The address is everything before the first NUL; the format starts at the
   * next multiple of four after the address's terminator, that is at
   * OSC_SIZE(address), and runs to the next NUL.
   */
  function ParseHeader(buffer: seq<Byte>): (r: Result<Header>)
    requires |buffer| == MaxDatagram
    ensures r.Ok? ==>
      var a, f := r.value.address, r.value.format;
      && |a| < AddressCapacity && Nul !in a
      && buffer[..|a|] == a && buffer[|a|] == Nul
      && |f| < FormatCapacity && Nul !in f
      && OscSize(a) + |f| < |buffer|
      && buffer[OscSize(a)..OscSize(a) + |f|] == f && buffer[OscSize(a) + |f|] == Nul
  {
    match ParseString(buffer, 0, AddressCapacity, AddressUnterminated, AddressOverflow)
    case Undefined(e) => Undefined(e)
    case Ok(address) =>
      match ParseString(buffer, OscSize(address), FormatCapacity, FormatUnterminated, FormatOverflow)
      case Undefined(e) => Undefined(e)
      case Ok(format) => Ok(Header(address, format))
  }

  /** strlen runs off the buffer exactly when the buffer holds no NUL. */
  lemma ParseHeaderUnterminated(buffer: seq<Byte>)
    requires |buffer| == MaxDatagram
    ensures ParseHeader(buffer) == Undefined(AddressUnterminated) <==> Nul !in buffer
  {
    assert buffer[0..] == buffer;
  }

  /** The message receive leaves behind: the header strings, data_size computed
      from the unpadded string lengths, that many bytes copied from the data
      cursor, and zero bytes (from the memset) after them. */
  function ParseBody(recv: int, buffer: seq<Byte>): (r: Result<Message>)
    requires 0 < recv <= |buffer| == MaxDatagram
    ensures r.Ok? ==> r.value.Valid()
    ensures r.Ok? ==> ParseHeader(buffer) == Ok(Header(r.value.address, r.value.format))
  {
    match ParseHeader(buffer)
    case Undefined(e) => Undefined(e)
    case Ok(h) =>
      var size := recv - (|h.address| + 1) - (|h.format| + 1);
      var start := OscSize(h.address) + OscSize(h.format);
      if size < 0 then Undefined(NegativeDataSize)
      else if size > DataCapacity then Undefined(DataOverflow)
      else if start + size > |buffer| then Undefined(ReadPastBuffer)
      else Ok(Message(h.address, h.format, buffer[start..start + size] + Zeros(DataCapacity - size), size))
  }

  /** strlen from position i of the buffer: the index of the first NUL there, or
      the end of the buffer when strlen would run off it. */
  method Strlen(buffer: seq<Byte>, i: nat) returns (end: nat)
    requires i <= |buffer|
    ensures i <= end <= |buffer|
    ensures FindNul(buffer, i) == if end < |buffer| then Some(end) else None
  {
    end := i;
    while end < |buffer| && buffer[end] != Nul
      invariant i <= end <= |buffer|
      invariant forall k :: i <= k < end ==> buffer[k] != Nul
    {
      end := end + 1;
    }
    if end < |buffer| {
      FindNulAt(buffer, i, end);
    }
  }

  /** The data array of a message cleared with memset and then given `src`
      with memcpy. */
  method CopyData(src: seq<Byte>) returns (contents: seq<Byte>)
    requires |src| <= DataCapacity
    ensures contents == src + Zeros(DataCapacity - |src|)
  {
    var data := new Byte[DataCapacity];
    ZeroFill(data);
    CopyInto(data, 0, src);
    contents := data[..];
    assert forall k :: 0 <= k < DataCapacity ==> contents[k] == (src + Zeros(DataCapacity - |src|))[k];
  }

  /** The cursor adjustment receive makes after each string: up to the next
      multiple of four unless it is on one already. */
  method Align(cursor: nat) returns (aligned: nat)
    ensures aligned % 4 == 0 && cursor <= aligned < cursor + 4
  {
    aligned := cursor;
    var offset := cursor;
    var padding := 4 - offset % 4;
    if offset % 4 != 0 {
      aligned := aligned + padding;
    }
  }

  lemma AlignedGap(x: nat, y: nat)
    requires x % 4 == 0 && y % 4 == 0 && x <= y
    ensures (y - x) % 4 == 0
  {
    assert y - x == 4 * (y / 4 - x / 4);
  }

  /** strlen, strcpy and the cursor moves for one string at an aligned
      cursor: past the terminator, then up to the next multiple of four. */
  method ReadString(buffer: seq<Byte>, at: nat, capacity: nat, unterminated: Fault, overflow: Fault)
    returns (r: Result<seq<Byte>>, cursor: nat)
    requires at <= |buffer| && at % 4 == 0
    ensures r == ParseString(buffer, at, capacity, unterminated, overflow)
    ensures r.Ok? ==> cursor == at + OscSize(r.value)
  {
    var e := Strlen(buffer, at);
    if e == |buffer| {
      return Undefined(unterminated), at;
    }
    if e - at >= capacity {
      return Undefined(overflow), at;
    }
    r := Ok(buffer[at..e]);
    var length := e - at + 1;
    cursor := Align(at + length);
    AlignedGap(at, cursor);
    OscSizeUnique(buffer[at..e], cursor - at);
  }

  /** The two strcpy's of receive and the cursor moves after them: the address
      from the start of the buffer, the format from OSC_SIZE(address). */
  method ReadHeader(buffer: seq<Byte>) returns (r: Result<Header>, cursor: nat)
    requires |buffer| == MaxDatagram
    ensures r == ParseHeader(buffer)
    ensures r.Ok? ==> cursor == OscSize(r.value.address) + OscSize(r.value.format)
  {
    var address, addressEnd := ReadString(buffer, 0, AddressCapacity, AddressUnterminated, AddressOverflow);
    if address.Undefined? {
      return Undefined(address.fault), addressEnd;
    }
    var format, formatEnd := ReadString(buffer, addressEnd, FormatCapacity, FormatUnterminated, FormatOverflow);
    if format.Undefined? {
      return Undefined(format.fault), formatEnd;
    }
    r, cursor := Ok(Header(address.value, format.value)), formatEnd;
  }

  /**
   * receive after recvfrom.  A status of zero or less is returned as it is and
   * the message is left alone; otherwise the message is cleared and refilled
   * as ParseBody describes, and the status is the received length.
   */
  method Receive(recv: int, buffer: seq<Byte>, msg: Message) returns (status: int, r: Result<Message>)
    requires recv <= |buffer| == MaxDatagram
    ensures status == recv
    ensures recv <= 0 ==> r == Ok(msg)
    ensures recv > 0 ==> r == ParseBody(recv, buffer)
  {
    status := recv;
    if recv <= 0 {
      return status, Ok(msg);
    }
    var header, cursor := ReadHeader(buffer);
    if header.Undefined? {
      return status, Undefined(header.fault);
    }
    var address, format := header.value.address, header.value.format;
    var addressLength, formatLength := |address| + 1, |format| + 1;

    // memcpy of the computed size, which is also stored as data_size
    var size := recv - addressLength - formatLength;
    if size < 0 {
      return status, Undefined(NegativeDataSize);
    }
    if size > DataCapacity {
      return status, Undefined(DataOverflow);
    }
    if cursor + size > |buffer| {
      return status, Undefined(ReadPastBuffer);
    }
    var contents := CopyData(buffer[cursor..cursor + size]);
    r := Ok(Message(address, format, contents, size));
  }

  /* ---------------------------------------------------------------------
   * Receiving a flattened message
   * --------------------------------------------------------------------- */

  /** The stack buffer after a flattened message arrived: the datagram, then
      stale bytes up to 256. */
  function Arrived(m: Message, stale: seq<Byte>): seq<Byte>
    requires m.Valid()
  {
    Flattened(m) + stale
  }

  /** The converse of ParseHeader's contract: a buffer holding a terminated
      address that fits its array and, at OSC_SIZE of it, a terminated format
      that fits its array parses to exactly those two strings. */
  lemma ParseHeaderOf(buffer: seq<Byte>, h: Header)
    requires |buffer| == MaxDatagram
    requires |h.address| < AddressCapacity && Nul !in h.address
    requires buffer[..|h.address|] == h.address && buffer[|h.address|] == Nul
    requires |h.format| < FormatCapacity && Nul !in h.format
    requires OscSize(h.address) + |h.format| < |buffer|
    requires buffer[OscSize(h.address)..OscSize(h.address) + |h.format|] == h.format
    requires buffer[OscSize(h.address) + |h.format|] == Nul
    ensures ParseHeader(buffer) == Ok(h)
  {
    assert buffer[0..|h.address|] == buffer[..|h.address|];
    ParseStringOf(buffer, 0, h.address, AddressCapacity, AddressUnterminated, AddressOverflow);
    ParseStringOf(buffer, OscSize(h.address), h.format, FormatCapacity, FormatUnterminated, FormatOverflow);
  }

  /** A terminated string that fits its array parses to itself. */
  lemma ParseStringOf(buffer: seq<Byte>, at: nat, s: seq<Byte>, capacity: nat, unterminated: Fault, overflow: Fault)
    requires at + |s| < |buffer| && |s| < capacity && Nul !in s
    requires buffer[at..at + |s|] == s && buffer[at + |s|] == Nul
    ensures ParseString(buffer, at, capacity, unterminated, overflow) == Ok(s)
  {
    assert forall j :: at <= j < at + |s| ==> buffer[j] != Nul by {
      assert forall j :: at <= j < at + |s| ==> buffer[j] == s[j - at];
    }
    FindNulAt(buffer, at, at + |s|);
  }

  /** Parsing a flattened message recovers its address and format. */
  lemma ParseHeaderFlattened(m: Message, stale: seq<Byte>)
    requires m.Valid() && |Flattened(m)| + |stale| == MaxDatagram
    ensures ParseHeader(Arrived(m, stale)) == Ok(Header(m.address, m.format))
  {
    var flat := Flattened(m);
    var buf := flat + stale;
    var la, lf := |m.address|, |m.format|;
    var a := OscSize(m.address);
    FlattenedLayout(m);
    assert buf[..la] == m.address && buf[la] == Nul by {
      assert buf[..la] == flat[..la];
    }
    assert buf[a..a + lf] == m.format && buf[a + lf] == Nul by {
      assert buf[a..a + lf] == flat[a..a + lf];
    }
    ParseHeaderOf(buf, Header(m.address, m.format));
  }

  /**
   * As written, receive over-counts data_size by the padding of the address
   * and of the format, so the recovered data is the original data followed by
   * that many stale stack bytes.  When the over-count pushes data_size past
   * 128 the memcpy overflows the data array.
   */
  lemma ParseFlattened(m: Message, stale: seq<Byte>)
    requires m.Valid() && |Flattened(m)| + |stale| == MaxDatagram
    ensures var over := Padding(m.address) + Padding(m.format);
      var r := ParseBody(|Flattened(m)|, Arrived(m, stale));
      && (r.Ok? <==> m.dataSize + over <= DataCapacity)
      && (r.Undefined? ==> r.fault == DataOverflow)
      && (r.Ok? ==>
            && r.value.address == m.address && r.value.format == m.format
            && r.value.dataSize == m.dataSize + over
            && r.value.data[..r.value.dataSize] == m.data[..m.dataSize] + stale[..over])
  {
    var d := m.dataSize;
    var start := OscSize(m.address) + OscSize(m.format);
    var flat := Flattened(m);
    var buf := Arrived(m, stale);
    assert |flat| == start + d && buf[start..|flat|] == m.data[..d] && buf[|flat|..] == stale by {
      FlattenedLayout(m);
      assert buf[start..|flat|] == flat[start..];
    }
    ParseHeaderFlattened(m, stale);
    ParseBodyOverCount(|flat|, buf, Header(m.address, m.format), m.data[..d], stale);
  }

  /** When the datagram holds d data bytes after the header, receive takes
      d plus both paddings; with strings that fit their arrays this never
      reads past the buffer. */
  lemma ParseBodyOverCount(recv: int, buffer: seq<Byte>, h: Header, data: seq<Byte>, stale: seq<Byte>)
    requires 0 < recv <= |buffer| == MaxDatagram
    requires ParseHeader(buffer) == Ok(h)
    requires |data| <= DataCapacity && recv == OscSize(h.address) + OscSize(h.format) + |data|
    requires buffer[recv - |data|..recv] == data && buffer[recv..] == stale
    ensures var over := Padding(h.address) + Padding(h.format);
      var r := ParseBody(recv, buffer);
      && (r.Ok? <==> |data| + over <= DataCapacity)
      && (r.Undefined? ==> r.fault == DataOverflow)
      && (r.Ok? ==>
            && r.value.address == h.address && r.value.format == h.format
            && r.value.dataSize == |data| + over
            && r.value.data[..r.value.dataSize] == data + stale[..over])
  {
    ParseBodyOf(recv, buffer, h);
    var over := Padding(h.address) + Padding(h.format);
    var start := recv - |data|;
    if |data| + over <= DataCapacity {
      SliceOver(buffer, start, recv, over);
    }
  }

  /** A slice that runs `over` bytes past position `mid` is the part before
      mid and the first `over` bytes after it. */
  lemma SliceOver(s: seq<Byte>, start: nat, mid: nat, over: nat)
    requires start <= mid && mid + over <= |s|
    ensures s[start..mid + over] == s[start..mid] + s[mid..][..over]
  {
    assert forall k :: start <= k < mid + over ==>
      s[k] == (s[start..mid] + s[mid..][..over])[k - start];
  }

  /** ParseBody once the header is known. */
  lemma ParseBodyOf(recv: int, buffer: seq<Byte>, h: Header)
    requires 0 < recv <= |buffer| == MaxDatagram
    requires ParseHeader(buffer) == Ok(h)
    ensures var size := recv - (|h.address| + 1) - (|h.format| + 1);
      var start := OscSize(h.address) + OscSize(h.format);
      ParseBody(recv, buffer) ==
        if size < 0 then Undefined(NegativeDataSize)
        else if size > DataCapacity then Undefined(DataOverflow)
        else if start + size > |buffer| then Undefined(ReadPastBuffer)
        else Ok(Message(h.address, h.format, buffer[start..start + size] + Zeros(DataCapacity - size), size))
  {
  }

  /* ---------------------------------------------------------------------
   * data_size computed from the cursor
   * --------------------------------------------------------------------- */

  /** receive with data_size the number of received bytes after the cursor,
      recv - (OSC_SIZE(address) + OSC_SIZE(format)). */
  function ParseBodyExact(recv: int, buffer: seq<Byte>): (r: Result<Message>)
    requires 0 < recv <= |buffer| == MaxDatagram
    ensures r.Ok? ==> r.value.Valid()
    ensures r.Ok? ==>
      var start := OscSize(r.value.address) + OscSize(r.value.format);
      start + r.value.dataSize == recv
    ensures r.Undefined? ==> r.fault != ReadPastBuffer
  {
    match ParseHeader(buffer)
    case Undefined(e) => Undefined(e)
    case Ok(h) =>
      var start := OscSize(h.address) + OscSize(h.format);
      var size := recv - start;
      if size < 0 then Undefined(NegativeDataSize)
      else if size > DataCapacity then Undefined(DataOverflow)
      else Ok(Message(h.address, h.format, buffer[start..recv] + Zeros(DataCapacity - size), size))
  }

  /** ParseBodyExact once the header is known. */
  lemma ParseBodyExactOf(recv: int, buffer: seq<Byte>, h: Header)
    requires 0 < recv <= |buffer| == MaxDatagram
    requires ParseHeader(buffer) == Ok(h)
    ensures var start := OscSize(h.address) + OscSize(h.format);
      var size := recv - start;
      ParseBodyExact(recv, buffer) ==
        if size < 0 then Undefined(NegativeDataSize)
        else if size > DataCapacity then Undefined(DataOverflow)
        else Ok(Message(h.address, h.format, buffer[start..recv] + Zeros(DataCapacity - size), size))
  {
  }

  /** With that size, parsing a flattened message gives back the message
      exactly, up to the data bytes after data_size that never travel. */
  lemma ParseExactFlattened(m: Message, stale: seq<Byte>)
    requires m.Valid() && |Flattened(m)| + |stale| == MaxDatagram
    ensures ParseBodyExact(|Flattened(m)|, Arrived(m, stale)) ==
            Ok(Message(m.address, m.format, m.data[..m.dataSize] + Zeros(DataCapacity - m.dataSize), m.dataSize))
  {
    var flat := Flattened(m);
    var buf := flat + stale;
    var start := OscSize(m.address) + OscSize(m.format);
    assert |flat| == start + m.dataSize && buf[start..|flat|] == m.data[..m.dataSize] by {
      FlattenedLayout(m);
      assert buf[start..|flat|] == flat[start..];
    }
    ParseHeaderFlattened(m, stale);
  }

  /** The padding the OSC format requires to be zero, which receive skips
      without reading. */
  predicate ZeroPadded(buffer: seq<Byte>, h: Header)
    requires OscSize(h.address) + OscSize(h.format) <= |buffer|
  {
    var a := OscSize(h.address);
    && buffer[|h.address| + 1..a] == Zeros(Padding(h.address))
    && buffer[a + |h.format| + 1..a + OscSize(h.format)] == Zeros(Padding(h.format))
  }

  /** A message received this way flattens back to the datagram, provided the
      datagram's padding bytes are zero as the OSC format requires. */
  lemma ExactReceiveFlattensBack(recv: int, buffer: seq<Byte>)
    requires 0 < recv <= |buffer| == MaxDatagram
    requires ParseBodyExact(recv, buffer).Ok?
    requires ZeroPadded(buffer, ParseHeader(buffer).value)
    ensures Flattened(ParseBodyExact(recv, buffer).value) == buffer[..recv]
  {
    var h := ParseHeader(buffer).value;
    var start := OscSize(h.address) + OscSize(h.format);
    var m := ParseBodyExact(recv, buffer).value;
    assert m.data[..m.dataSize] == buffer[start..recv] by {
      ParseBodyExactOf(recv, buffer, h);
    }
    assert buffer[..start] == Padded(h.address) + Padded(h.format) by {
      HeaderInBuffer(buffer, h);
    }
    assert buffer[..recv] == buffer[..start] + buffer[start..recv];
  }

  /** A parsed header whose padding is zero is the start of the buffer. */
  lemma HeaderInBuffer(buffer: seq<Byte>, h: Header)
    requires OscSize(h.address) + OscSize(h.format) <= |buffer|
    requires buffer[..|h.address|] == h.address && buffer[|h.address|] == Nul
    requires buffer[OscSize(h.address)..OscSize(h.address) + |h.format|] == h.format
    requires buffer[OscSize(h.address) + |h.format|] == Nul
    requires ZeroPadded(buffer, h)
    ensures buffer[..OscSize(h.address) + OscSize(h.format)] == Padded(h.address) + Padded(h.format)
  {
    var a := OscSize(h.address);
    var start := a + OscSize(h.format);
    assert buffer[0..a] == Padded(h.address) by {
      assert buffer[0..|h.address|] == buffer[..|h.address|];
      PaddedInBuffer(buffer, h.address, 0);
    }
    assert buffer[a..start] == Padded(h.format) by {
      PaddedInBuffer(buffer, h.format, a);
    }
    assert buffer[..start] == buffer[0..a] + buffer[a..start];
  }

  /** A string followed by a NUL and zero padding in a buffer is its padded
      form there. */
  lemma PaddedInBuffer(buffer: seq<Byte>, s: seq<Byte>, at: nat)
    requires at + OscSize(s) <= |buffer|
    requires buffer[at..at + |s|] == s
    requires buffer[at + |s|] == Nul
    requires buffer[at + |s| + 1..at + OscSize(s)] == Zeros(Padding(s))
    ensures buffer[at..at + OscSize(s)] == Padded(s)
  {
    assert buffer[at..at + OscSize(s)] == s + [Nul] + Zeros(Padding(s));
    assert Padded(s) == s + [Nul] + Zeros(Padding(s));
  }
}
