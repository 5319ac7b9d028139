/**
 * Bytes, 32-bit words and C strings as the OSC client sees them.
 *
 * The firmware keeps every buffer as `char` (its `byte` type is `char`), so a
 * byte here is an 8-bit vector and a word is `uint32_t`.  A C string is
 * modelled by its content: the bytes before the terminating NUL.
 */
module OscBytes {

  datatype Option<+T> = None | Some(value: T)

  type Byte = bv8
  type Word = bv32

  const Nul: Byte := 0

  function Zeros(n: nat): (r: seq<Byte>)
    ensures |r| == n && forall i :: 0 <= i < n ==> r[i] == Nul
  {
    seq(n, _ => Nul)
  }

  /* ---------------------------------------------------------------------
   * OSC_SIZE: the size of a string once it is NUL-terminated and padded to a
   * multiple of four bytes.
   * --------------------------------------------------------------------- */

  function OscSize(s: seq<Byte>): (r: nat)
    ensures r % 4 == 0
    ensures |s| + 1 <= r < |s| + 5
  {
    var len := |s| + 1;
    if len % 4 != 0 then len + (4 - len % 4) else len
  }

  /** OSC_SIZE is the only multiple of four that leaves room for the terminator
      and wastes fewer than four bytes. */
  lemma OscSizeUnique(s: seq<Byte>, m: int)
    requires m % 4 == 0 && |s| + 1 <= m < |s| + 5
    ensures m == OscSize(s)
  {
    var r := OscSize(s);
    assert (m - r) % 4 == 0;
  }

  /** The fixed cases the padding rule is usually illustrated with. */
  lemma OscSizeExamples()
    ensures OscSize([]) == 4                        // ""
    ensures OscSize([0x61]) == 4                    // "a"
    ensures OscSize([0x61, 0x62, 0x63]) == 4        // "abc"
    ensures OscSize([0x61, 0x62, 0x63, 0x64]) == 8  // "abcd"
  {
  }

  /** The padding bytes OSC_SIZE adds after the terminator: 0 to 3. */
  function Padding(s: seq<Byte>): (p: nat)
    ensures p < 4 && |s| + 1 + p == OscSize(s)
  {
    OscSize(s) - |s| - 1
  }

  /** A string as it travels on the wire: content, terminator, zero padding. */
  function Padded(s: seq<Byte>): (r: seq<Byte>)
    ensures |r| == OscSize(s)
    ensures r[..|s|] == s
    ensures forall k :: |s| <= k < |r| ==> r[k] == Nul
  {
    s + Zeros(OscSize(s) - |s|)
  }

  /* ---------------------------------------------------------------------
   * First NUL at or after a position; strlen and strcpy stop there.
   * --------------------------------------------------------------------- */

  function FindNul(s: seq<Byte>, i: nat): (r: Option<nat>)
    requires i <= |s|
    ensures r.Some? ==> i <= r.value < |s| && s[r.value] == Nul
    ensures r.Some? ==> forall j :: i <= j < r.value ==> s[j] != Nul
    ensures r.None? ==> forall j :: i <= j < |s| ==> s[j] != Nul
    decreases |s| - i
  {
    if i == |s| then None
    else if s[i] == Nul then Some(i)
    else FindNul(s, i + 1)
  }

  /** The first NUL at or after i is the one with no NUL between. */
  lemma FindNulAt(s: seq<Byte>, i: nat, k: nat)
    requires i <= k < |s| && s[k] == Nul
    requires forall j :: i <= j < k ==> s[j] != Nul
    ensures FindNul(s, i) == Some(k)
  {
  }

  /** The C string held in a buffer that contains a NUL. */
  function CString(s: seq<Byte>): (r: seq<Byte>)
    requires Nul in s
    ensures |r| < |s| && s[..|r|] == r && s[|r|] == Nul && Nul !in r
  {
    var k := FindNul(s, 0).value;
    s[..k]
  }

  /** A NUL with no NUL before it ends the C string. */
  lemma CStringAt(s: seq<Byte>, k: nat)
    requires k < |s| && s[k] == Nul
    requires forall j :: 0 <= j < k ==> s[j] != Nul
    ensures CString(s) == s[..k]
  {
  }

  /* ---------------------------------------------------------------------
   * Words and byte order.  The target (a Cortex-M) is little-endian, so a
   * word copied into memory with memcpy is stored least significant byte
   * first.
   * --------------------------------------------------------------------- */

  /** Byte k (0 = least significant) of a word. */
  function ByteOf(w: Word, k: nat): Byte
    requires k < 4
  {
    if k == 0 then (w & 0xFF) as Byte
    else if k == 1 then ((w >> 8) & 0xFF) as Byte
    else if k == 2 then ((w >> 16) & 0xFF) as Byte
    else ((w >> 24) & 0xFF) as Byte
  }

  /** swap_endian: reverses the four bytes of a word with masks and shifts. */
  function SwapEndian(number: Word): (r: Word)
    ensures forall k :: 0 <= k < 4 ==> ByteOf(r, k) == ByteOf(number, 3 - k)
  {
    var byte0 := (number & 0x000000FF) >> 0;
    var byte1 := (number & 0x0000FF00) >> 8;
    var byte2 := (number & 0x00FF0000) >> 16;
    var byte3 := (number & 0xFF000000) >> 24;
    (byte0 << 24) | (byte1 << 16) | (byte2 << 8) | (byte3 << 0)
  }

  lemma SwapEndianInvolution(w: Word)
    ensures SwapEndian(SwapEndian(w)) == w
  {
  }

  /** The four bytes memcpy stores for a word on the little-endian host. */
  function HostBytes(w: Word): (r: seq<Byte>)
    ensures |r| == 4 && forall k :: 0 <= k < 4 ==> r[k] == ByteOf(w, k)
  {
    [ByteOf(w, 0), ByteOf(w, 1), ByteOf(w, 2), ByteOf(w, 3)]
  }

  /** The word memcpy loads from four bytes on the little-endian host. */
  function HostWord(b: seq<Byte>): (w: Word)
    requires |b| == 4
    ensures forall k :: 0 <= k < 4 ==> ByteOf(w, k) == b[k]
  {
    (b[0] as Word) | ((b[1] as Word) << 8) | ((b[2] as Word) << 16) | ((b[3] as Word) << 24)
  }

  /** The word four bytes denote in network (big-endian) order. */
  function NetworkWord(b: seq<Byte>): (w: Word)
    requires |b| == 4
    ensures forall k :: 0 <= k < 4 ==> ByteOf(w, k) == b[3 - k]
  {
    ((b[0] as Word) << 24) | ((b[1] as Word) << 16) | ((b[2] as Word) << 8) | (b[3] as Word)
  }

  /** A word is determined by its four bytes. */
  lemma WordFromBytes(v: Word, w: Word)
    requires forall k :: 0 <= k < 4 ==> ByteOf(v, k) == ByteOf(w, k)
    ensures v == w
  {
    assert ByteOf(v, 0) == ByteOf(w, 0) && ByteOf(v, 1) == ByteOf(w, 1);
    assert ByteOf(v, 2) == ByteOf(w, 2) && ByteOf(v, 3) == ByteOf(w, 3);
  }

  lemma HostWordOfHostBytes(w: Word)
    ensures HostWord(HostBytes(w)) == w
  {
    WordFromBytes(HostWord(HostBytes(w)), w);
  }

  /** Loading in host order and then swapping reads the bytes in network order,
      which is what every reader in the client does. */
  lemma SwapOfHostWordIsNetworkWord(b: seq<Byte>)
    requires |b| == 4
    ensures SwapEndian(HostWord(b)) == NetworkWord(b)
  {
    WordFromBytes(SwapEndian(HostWord(b)), NetworkWord(b));
  }

  /* ---------------------------------------------------------------------
   * memset and memcpy on fixed buffers.
   * --------------------------------------------------------------------- */

  method ZeroFill(a: array<Byte>)
    modifies a
    ensures forall k :: 0 <= k < a.Length ==> a[k] == Nul
  {
    for i := 0 to a.Length
      invariant forall k :: 0 <= k < i ==> a[k] == Nul
    {
      a[i] := Nul;
    }
  }

  method CopyInto(dst: array<Byte>, at: nat, src: seq<Byte>)
    requires at + |src| <= dst.Length
    modifies dst
    ensures forall k :: 0 <= k < dst.Length ==>
      dst[k] == if at <= k < at + |src| then src[k - at] else old(dst[k])
  {
    for i := 0 to |src|
      invariant forall k :: 0 <= k < dst.Length ==>
        dst[k] == if at <= k < at + i then src[k - at] else old(dst[k])
    {
      dst[at + i] := src[i];
    }
  }
}
