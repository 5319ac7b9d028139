/**
 * The OSCMessage record, the encoder build_osc_message, the serialiser
 * flatten_osc_message and the accessor getIntAtIndex.
 *
 * An OSCMessage holds a 64-byte address, a 16-byte type-tag string, a
 * 128-byte data array and the count of valid data bytes.  Here the address and
 * format are their C string contents and `data` is the whole data array.
 */
module OscMessage {
  import opened OscBytes

  const AddressCapacity: nat := 64
  const FormatCapacity: nat := 16
  const DataCapacity: nat := 128
  /** OSC_MSG_SIZE: the largest datagram the client sends or receives. */
  const MaxDatagram: nat := 256

  const TagInt: Byte := 0x69     // 'i'
  const TagFloat: Byte := 0x66   // 'f'
  const TagString: Byte := 0x73  // 's'

  datatype Message = Message(address: seq<Byte>, format: seq<Byte>, data: seq<Byte>, dataSize: int)
  {
    /** Both strings fit their arrays with their terminators, the data array
        has its fixed size and dataSize counts bytes inside it. */
    ghost predicate Valid() {
      && |address| < AddressCapacity && Nul !in address
      && |format| < FormatCapacity && Nul !in format
      && |data| == DataCapacity
      && 0 <= dataSize <= DataCapacity
    }
  }

  /**
   * One argument of build_osc_message.  The variadic list of the source is
   * replaced by these typed values: an `int` (its 32-bit pattern), a float (its
   * 32-bit pattern after the conversion to `float`) or a C string.
   */
  datatype Field = IntField(value: Word) | FloatField(bits: Word) | StringField(chars: seq<Byte>)

  predicate IsTypeTag(c: Byte) {
    c == TagInt || c == TagFloat || c == TagString
  }

  /** The characters of a tag string that consume an argument, in order. */
  function TypeTags(tags: seq<Byte>): (r: seq<Byte>)
    ensures |r| <= |tags|
    ensures forall k :: 0 <= k < |r| ==> IsTypeTag(r[k])
  {
    if tags == [] then []
    else
      var last := tags[|tags| - 1];
      TypeTags(tags[..|tags| - 1]) + if IsTypeTag(last) then [last] else []
  }

  lemma {:induction false} TypeTagsPrefix(tags: seq<Byte>, n: nat)
    requires n <= |tags|
    ensures TypeTags(tags[..n]) <= TypeTags(tags)
    decreases |tags| - n
  {
    if n < |tags| {
      var init := tags[..|tags| - 1];
      assert init[..n] == tags[..n];
      TypeTagsPrefix(init, n);
    } else {
      assert tags[..n] == tags;
    }
  }

  /** One step of the walk over the tags: a type tag consumes the next
      argument, which then has the matching kind; any other character
      consumes nothing. */
  lemma TagStep(format: seq<Byte>, fields: seq<Field>, j: nat)
    requires Conforms(format, fields) && 1 <= j < |format|
    ensures TypeTags(format[1..j + 1]) ==
            TypeTags(format[1..j]) + if IsTypeTag(format[j]) then [format[j]] else []
    ensures TypeTags(format[1..j + 1]) <= TypeTags(format[1..])
    ensures IsTypeTag(format[j]) ==>
              |TypeTags(format[1..j])| < |fields| &&
              FieldMatches(format[j], fields[|TypeTags(format[1..j])|])
  {
    assert format[1..j + 1][..j - 1] == format[1..j];
    TypeTagsPrefix(format[1..], j);
    assert format[1..][..j] == format[1..j + 1];
  }

  predicate FieldMatches(tag: Byte, f: Field) {
    || (tag == TagInt && f.IntField?)
    || (tag == TagFloat && f.FloatField?)
    || (tag == TagString && f.StringField? && Nul !in f.chars)
  }

  /** The arguments agree in number and kind with the tags after format[0]. */
  predicate Conforms(format: seq<Byte>, fields: seq<Field>) {
    && |format| >= 1
    && |TypeTags(format[1..])| == |fields|
    && forall k :: 0 <= k < |fields| ==> FieldMatches(TypeTags(format[1..])[k], fields[k])
  }

  /** The bytes build_osc_message writes for one argument. */
  function FieldWidth(f: Field): nat {
    match f
    case IntField(_) => 4
    case FloatField(_) => 4
    case StringField(s) => OscSize(s)
  }

  function FieldBytes(f: Field): (r: seq<Byte>)
    ensures |r| == FieldWidth(f)
  {
    match f
    case IntField(v) => HostBytes(v)
    case FloatField(b) => HostBytes(b)
    case StringField(s) => Padded(s)
  }

  /** Sum of the widths of the arguments: what data_size ends up as. */
  function EncodedSize(fields: seq<Field>): (n: nat)
    ensures n % 4 == 0
  {
    if fields == [] then 0
    else EncodedSize(fields[..|fields| - 1]) + FieldWidth(fields[|fields| - 1])
  }

  /** The arguments encoded back to back, in order. */
  function EncodeAll(fields: seq<Field>): (r: seq<Byte>)
    ensures |r| == EncodedSize(fields)
  {
    if fields == [] then []
    else EncodeAll(fields[..|fields| - 1]) + FieldBytes(fields[|fields| - 1])
  }

  /** Encoding a prefix of the arguments gives a prefix of the encoding. */
  lemma {:induction false} EncodeAllPrefix(fields: seq<Field>, n: nat)
    requires n <= |fields|
    ensures EncodedSize(fields[..n]) <= EncodedSize(fields)
    ensures EncodeAll(fields[..n]) <= EncodeAll(fields)
    decreases |fields| - n
  {
    if n == |fields| {
      assert fields[..n] == fields;
    } else {
      var init := fields[..|fields| - 1];
      assert init[..n] == fields[..n];
      EncodeAllPrefix(init, n);
    }
  }

  /** One more argument appends its own width and bytes. */
  lemma ArgumentStep(fields: seq<Field>, a: nat)
    requires a < |fields|
    ensures EncodedSize(fields[..a + 1]) == EncodedSize(fields[..a]) + FieldWidth(fields[a]) <= EncodedSize(fields)
    ensures EncodeAll(fields[..a + 1]) == EncodeAll(fields[..a]) + FieldBytes(fields[a])
  {
    assert fields[..a + 1][..a] == fields[..a] && fields[..a + 1][a] == fields[a];
    EncodeAllPrefix(fields, a + 1);
  }

  lemma SliceOfPrefix(u: seq<Byte>, v: seq<Byte>, e: seq<Byte>)
    requires u + v <= e
    ensures e[|u|..|u| + |v|] == v
  {
    assert e[..|u| + |v|] == u + v;
  }

  /** Argument k starts where the ones before it end (at offset
      EncodedSize(fields[..k])) and occupies exactly its own width. */
  lemma EncodeAllAt(fields: seq<Field>, k: nat)
    requires k < |fields|
    ensures EncodeAll(fields[..k]) + FieldBytes(fields[k]) <= EncodeAll(fields)
  {
    var p := fields[..k + 1];
    assert p[..k] == fields[..k] && p[k] == fields[k];
    assert EncodeAll(p) == EncodeAll(fields[..k]) + FieldBytes(fields[k]);
    EncodeAllPrefix(fields, k + 1);
  }

  /** A string argument: its characters, then a terminator and padding, all zero. */
  lemma StringFieldLayout(s: seq<Byte>)
    ensures FieldBytes(StringField(s))[..|s|] == s
    ensures forall k :: |s| <= k < OscSize(s) ==> FieldBytes(StringField(s))[k] == Nul
  {
  }

  /** An integer argument is stored in host order, without byte swapping. */
  lemma IntFieldLayout(v: Word)
    ensures FieldBytes(IntField(v)) == HostBytes(v)
    ensures HostWord(FieldBytes(IntField(v))) == v
  {
    HostWordOfHostBytes(v);
  }

  /* ---------------------------------------------------------------------
   * build_osc_message
   * --------------------------------------------------------------------- */

  /** One case of the switch in build_osc_message: writes argument f, whose
      kind matches tag, at offset i of the data array. */
  method PutField(data: array<Byte>, i: nat, tag: Byte, f: Field)
    requires FieldMatches(tag, f) && i + FieldWidth(f) <= data.Length
    modifies data
    ensures data[..i + FieldWidth(f)] == old(data[..i]) + FieldBytes(f)
    ensures data[i + FieldWidth(f)..] == old(data[i + FieldWidth(f)..])
  {
    if tag == TagInt || tag == TagFloat {
      CopyInto(data, i, FieldBytes(f));
    } else {
      var s := f.chars;
      var m, n := |s| + 1, OscSize(s);
      CopyInto(data, i, s + [Nul]);
      for k := m to n
        invariant forall p :: 0 <= p < i + m ==> data[p] == (old(data[..i]) + Padded(s))[p]
        invariant forall p :: i + m <= p < i + k ==> data[p] == Nul
        invariant forall p :: i + n <= p < data.Length ==> data[p] == old(data[p])
      {
        data[i + k] := Nul;
      }
    }
  }

  /**
   * Copies address and format, then walks the tags from format[1]: each `i` or
   * `f` appends four host-order bytes, each `s` appends the string, its
   * terminator and zero padding up to OSC_SIZE, and any other character adds
   * nothing.  The source checks none of the capacities required here.
   */
  method BuildMessage(address: seq<Byte>, format: seq<Byte>, fields: seq<Field>) returns (msg: Message)
    requires |address| < AddressCapacity && Nul !in address
    requires |format| < FormatCapacity && Nul !in format
    requires Conforms(format, fields)
    requires EncodedSize(fields) <= DataCapacity
    ensures msg.Valid()
    ensures msg.address == address && msg.format == format
    ensures msg.dataSize == EncodedSize(fields)
    ensures msg.data[..msg.dataSize] == EncodeAll(fields)
  {
    var data := new Byte[DataCapacity];
    var i, j, a := 0, 1, 0;
    while j < |format|
      invariant 1 <= j <= |format|
      invariant a == |TypeTags(format[1..j])| <= |fields|
      invariant TypeTags(format[1..j]) <= TypeTags(format[1..])
      invariant i == EncodedSize(fields[..a]) <= EncodedSize(fields)
      invariant data[..i] == EncodeAll(fields[..a])
    {
      TagStep(format, fields, j);
      var c := format[j];
      j := j + 1;
      if IsTypeTag(c) {
        var f := fields[a];
        ArgumentStep(fields, a);
        PutField(data, i, c, f);
        i := i + FieldWidth(f);
        a := a + 1;
      }
    }
    assert format[1..j] == format[1..];
    assert fields[..a] == fields;
    msg := Message(address, format, data[..], i);
  }

  /* ---------------------------------------------------------------------
   * flatten_osc_message
   * --------------------------------------------------------------------- */

  /** The wire image: padded address, padded format, then the valid data. */
  function Flattened(m: Message): (r: seq<Byte>)
    requires 0 <= m.dataSize <= |m.data|
  {
    Padded(m.address) + Padded(m.format) + m.data[..m.dataSize]
  }

  /** Where each part of a flattened message lies; every padding byte is zero. */
  lemma FlattenedLayout(m: Message)
    requires m.Valid()
    ensures var r := Flattened(m);
      var a, f := OscSize(m.address), OscSize(m.format);
      && |r| == a + f + m.dataSize
      && r[..|m.address|] == m.address
      && (forall k :: |m.address| <= k < a ==> r[k] == Nul)
      && r[a..a + |m.format|] == m.format
      && (forall k :: a + |m.format| <= k < a + f ==> r[k] == Nul)
      && r[a + f..] == m.data[..m.dataSize]
  {
    var r := Flattened(m);
    var a := OscSize(m.address);
    assert r[..a] == Padded(m.address);
    assert r[a..a + OscSize(m.format)] == Padded(m.format);
  }

  /** Adding multiples of four keeps the remainder modulo four. */
  lemma AlignedSum(a: nat, f: nat, d: nat)
    requires a % 4 == 0 && f % 4 == 0
    ensures (a + f + d) % 4 == d % 4
  {
    assert a + f + d == 4 * (a / 4 + f / 4) + d;
  }

  /** A message built from conforming arguments flattens to a whole number of
      four-byte words, as the comment in flatten_osc_message promises. */
  lemma FlattenedBuiltIsAligned(m: Message, fields: seq<Field>)
    requires m.Valid() && m.dataSize == EncodedSize(fields)
    ensures |Flattened(m)| % 4 == 0
  {
    FlattenedLayout(m);
    AlignedSum(OscSize(m.address), OscSize(m.format), m.dataSize);
  }

  /**
   * Zero-fills a buffer of OSC_SIZE(address) + OSC_SIZE(format) + data_size
   * bytes, strcpy's the address at 0 and the format at OSC_SIZE(address), then
   * copies data_size data bytes.  The length is a multiple of four exactly when
   * data_size is.
   */
  method Flatten(msg: Message) returns (stream: seq<Byte>, length: int)
    requires msg.Valid()
    ensures length == |stream| == OscSize(msg.address) + OscSize(msg.format) + msg.dataSize
    ensures length % 4 == msg.dataSize % 4
    ensures stream == Flattened(msg)
  {
    var paddedAddressLength, paddedFormatLength := OscSize(msg.address), OscSize(msg.format);
    length := paddedAddressLength + paddedFormatLength + msg.dataSize;
    var buf := new Byte[length];
    var posn := WriteHeader(buf, msg);
    ghost var header := buf[..posn];
    for i := 0 to msg.dataSize
      invariant posn == paddedAddressLength + paddedFormatLength + i
      invariant buf[..posn] == header + msg.data[..i]
    {
      buf[posn] := msg.data[i];
      posn := posn + 1;
      assert msg.data[..i + 1] == msg.data[..i] + [msg.data[i]];
    }
    stream := buf[..];
    assert stream == buf[..posn];
    AlignedSum(paddedAddressLength, paddedFormatLength, msg.dataSize);
  }

  /** The first part of flatten: zero the buffer and strcpy the address and the
      format into it, each at the start of its padded slot. */
  method WriteHeader(buf: array<Byte>, msg: Message) returns (posn: nat)
    requires msg.Valid() && OscSize(msg.address) + OscSize(msg.format) <= buf.Length
    modifies buf
    ensures posn == OscSize(msg.address) + OscSize(msg.format)
    ensures buf[..posn] == Padded(msg.address) + Padded(msg.format)
    ensures forall k :: posn <= k < buf.Length ==> buf[k] == Nul
  {
    ZeroFill(buf);
    posn := 0;
    StrcpyPadded(buf, posn, msg.address);
    posn := posn + OscSize(msg.address);
    StrcpyPadded(buf, posn, msg.format);
    posn := posn + OscSize(msg.format);
  }

  /** strcpy into a zeroed buffer: the string and its terminator at `at`, with
      the zeros after them up to OSC_SIZE left as padding. */
  method StrcpyPadded(buf: array<Byte>, at: nat, s: seq<Byte>)
    requires at + OscSize(s) <= buf.Length
    requires forall k :: at <= k < buf.Length ==> buf[k] == Nul
    modifies buf
    ensures buf[..at + OscSize(s)] == old(buf[..at]) + Padded(s)
    ensures forall k :: at + OscSize(s) <= k < buf.Length ==> buf[k] == Nul
  {
    CopyInto(buf, at, s + [Nul]);
    assert buf[..at + OscSize(s)] == old(buf[..at]) + Padded(s) by {
      assert forall k :: 0 <= k < at + OscSize(s) ==>
        buf[k] == (old(buf[..at]) + Padded(s))[k];
    }
  }

  /* ---------------------------------------------------------------------
   * getIntAtIndex
   * --------------------------------------------------------------------- */

  /** Loads the four bytes at 4*index in host order and swaps them, ignoring the
      format; the effect is to read them in network order. */
  function GetIntAtIndex(msg: Message, index: int): (r: Word)
    requires 0 <= index && 4 * index + 4 <= |msg.data|
    ensures r == NetworkWord(msg.data[4 * index..4 * index + 4])
  {
    SwapOfHostWordIsNetworkWord(msg.data[4 * index..4 * index + 4]);
    SwapEndian(HostWord(msg.data[4 * index..4 * index + 4]))
  }

  /** So an integer written by BuildMessage comes back byte-swapped. */
  lemma BuiltIntReadsSwapped(msg: Message, fields: seq<Field>, k: nat)
    requires k < |fields| && 4 * k + 4 <= |msg.data|
    requires forall j :: 0 <= j <= k ==> fields[j].IntField?
    requires EncodeAll(fields) <= msg.data
    ensures GetIntAtIndex(msg, k) == SwapEndian(fields[k].value)
  {
    IntPrefixSize(fields, k);
    EncodeAllAt(fields, k);
    var bytes := HostBytes(fields[k].value);
    SliceOfPrefix(EncodeAll(fields[..k]), bytes, msg.data);
    SwapOfHostWordIsNetworkWord(bytes);
  }

  lemma {:induction false} IntPrefixSize(fields: seq<Field>, k: nat)
    requires k <= |fields|
    requires forall j :: 0 <= j < k ==> fields[j].IntField?
    ensures EncodedSize(fields[..k]) == 4 * k
  {
    if k > 0 {
      assert fields[..k][..k - 1] == fields[..k - 1];
      IntPrefixSize(fields, k - 1);
    }
  }
}
